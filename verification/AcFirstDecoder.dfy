/** First scans of AC bands in progressive Huffman mode, from the encoder (jcphuff.c,
    encode_mcu_AC_first) to the decoder (jdphuff.c, decode_mcu_AC_first). */
module AcFirstDecoding {
  import opened Shifts
  import opened ProbabilityTable
  import opened BitStrings
  import opened Binarisation
  import opened McuDecoding
  import opened EobRuns
  import opened ProgressiveAc
  import opened AcRefineDecoding
  import opened CodeLengths
  import opened DerivedTable
  import opened DecodingTable
  import SymbolDecoding
  import opened AcBits

  // ----- values

  /** The bits of a value give it back. */
  lemma {:induction false} ValueRead(v: nat, negative: bool)
    requires v > 0
    ensures |ValueBits(v, negative)| == BitLength(v) > 0
    ensures SymbolDecoding.HuffExtend(Number(ValueBits(v, negative)), BitLength(v)) == if negative then 0 - v else v
  {
    hide BitsOf, Number, BitLength;
    var n := BitLength(v);
    var w := if negative then Pow2(n) - 1 - v else v;
    NumberOfBits(w, n);
    Pow2Double(n - 1);
    hide Pow2;
    QuotientIs(w, Pow2(n), 0);
  }

  /** The coefficient stored for a magnitude and a sign. */
  lemma {:induction false} Stored(x: Coef, al: nat)
    ensures ToCoef((if x < 0 then 0 - Abs(PointAc(x, al)) else Abs(PointAc(x, al))) * Pow2(al)) == ApproxAc(x, al)
  {
    ApproxAcIs(x, al);
    ApproxAcInRange(x, al);
    hide PointAc, Pow2;
    var v: int, p: int := Abs(PointAc(x, al)), Pow2(al);
    assert (0 - v) * p == 0 - v * p;
  }

  // ----- what comes next

  lemma {:induction false} ZerosSkipped(vals: seq<nat>, negative: seq<bool>, k: nat, q: nat, r: nat)
    requires k <= q <= |vals| == |negative| && forall i :: k <= i < q ==> vals[i] == 0
    ensures FirstFrom(vals, negative, k, r) == FirstFrom(vals, negative, q, r + (q - k))
    decreases q - k
  {
    hide CoefItems, Prepend;
    if k < q {
      ZerosSkipped(vals, negative, k + 1, q, r + 1);
    }
  }

  /** The end of the block, sixteen zeros, or a value behind fewer zeros. */
  lemma {:induction false} FirstNext(vals: seq<nat>, negative: seq<bool>, k: nat) returns (q: nat)
    requires k < |vals| == |negative|
    ensures k <= q <= |vals| && (forall i :: k <= i < q ==> vals[i] == 0) && (q < |vals| ==> vals[q] != 0)
    ensures q == |vals| ==> FirstFrom(vals, negative, k, 0) == BlockCode([], [], true)
    ensures q < |vals| && q - k > 15 ==>
              FirstFrom(vals, negative, k, 0) == Prepend([Symbol(ZRL)], FirstFrom(vals, negative, k + 16, 0))
    ensures q < |vals| && q - k <= 15 ==>
              FirstFrom(vals, negative, k, 0) == Prepend(Value(vals[q], negative[q], q - k), FirstFrom(vals, negative, q + 1, 0))
  {
    hide FirstFrom, CoefItems, Zrls;
    q := k;
    while q < |vals| && vals[q] == 0
      invariant k <= q <= |vals| && forall i :: k <= i < q ==> vals[i] == 0
    {
      q := q + 1;
    }
    if q == |vals| {
      FirstEnds(vals, negative, k);
    } else {
      ValueNext(vals, negative, k, q);
    }
  }

  function Value(v: nat, negative: bool, r: nat): seq<Item> {
    [Symbol(16 * r + BitLength(v))] + Raws(ValueBits(v, negative))
  }

  lemma {:induction false} ValueNext(vals: seq<nat>, negative: seq<bool>, k: nat, q: nat)
    requires k <= q < |vals| == |negative| && (forall i :: k <= i < q ==> vals[i] == 0) && vals[q] != 0
    ensures q - k > 15 ==> FirstFrom(vals, negative, k, 0) == Prepend([Symbol(ZRL)], FirstFrom(vals, negative, k + 16, 0))
    ensures q - k <= 15 ==>
              FirstFrom(vals, negative, k, 0) == Prepend(Value(vals[q], negative[q], q - k), FirstFrom(vals, negative, q + 1, 0))
  {
    hide FirstFrom, Zrls, BitLength, ValueBits;
    var n, onward := q - k, FirstFrom(vals, negative, q + 1, 0);
    ZerosSkipped(vals, negative, k, q, 0);
    FirstStep(vals, negative, q, n);
    ZrlsStep(n);
    var value := [Symbol(16 * (n % 16) + BitLength(vals[q]))];
    var bits := Raws(ValueBits(vals[q], negative[q]));
    if n > 15 {
      ZerosSkipped(vals, negative, k + 16, q, 0);
      FirstStep(vals, negative, q, n - 16);
      assert (n - 16) % 16 == n % 16;
      assert [Symbol(ZRL)] + Zrls(n - 16) + value + bits == [Symbol(ZRL)] + (Zrls(n - 16) + value + bits);
      PrependTwice([Symbol(ZRL)], Zrls(n - 16) + value + bits, onward);
    } else {
      assert [] + value + bits == value + bits;
    }
  }

  /** What is still to be read of a block from `k` on. */
  function RestOfFirst(vals: seq<nat>, negative: seq<bool>, k: nat, run: nat, after: seq<Item>): seq<Item>
    requires k <= |vals| == |negative|
  {
    var code := FirstFrom(vals, negative, k, 0);
    code.prefix + if code.eob && run > 0 then EobCode(run) + after else after
  }

  /** The symbol ahead, and what follows it. */
  lemma {:induction false} FirstAhead(vals: seq<nat>, negative: seq<bool>, k: nat, run: nat, after: seq<Item>) returns (q: nat, symbol: nat)
    requires k < |vals| == |negative|
    requires FirstFrom(vals, negative, k, 0).eob ==> 0 < run <= MAX_EOBRUN
    requires forall i :: k <= i < |vals| ==> BitLength(vals[i]) <= MAX_COEF_BITS
    ensures k <= q <= |vals| && (forall i :: k <= i < q ==> vals[i] == 0)
    ensures q == |vals| ==>
              && symbol == 16 * (BitLength(run) - 1) && 0 < run && BitLength(run) <= 15 && FirstFrom(vals, negative, k, 0).eob
              && RestOfFirst(vals, negative, k, run, after) == [Symbol(symbol)] + (Raws(BitsOf(run, BitLength(run) - 1)) + after)
    ensures q < |vals| && q - k > 15 ==>
              && symbol == ZRL && FirstFrom(vals, negative, k, 0).eob == FirstFrom(vals, negative, k + 16, 0).eob
              && RestOfFirst(vals, negative, k, run, after) == [Symbol(symbol)] + RestOfFirst(vals, negative, k + 16, run, after)
    ensures q < |vals| && q - k <= 15 ==>
              && vals[q] > 0 && symbol == 16 * (q - k) + BitLength(vals[q]) && symbol / 16 == q - k && symbol % 16 == BitLength(vals[q]) > 0
              && FirstFrom(vals, negative, k, 0).eob == FirstFrom(vals, negative, q + 1, 0).eob
              && RestOfFirst(vals, negative, k, run, after)
                 == [Symbol(symbol)] + (Raws(ValueBits(vals[q], negative[q])) + RestOfFirst(vals, negative, q + 1, run, after))
  {
    hide FirstFrom, BitLength, ValueBits, BitsOf, Raws, Value, Prepend, EobCode, RestOfFirst;
    q := FirstNext(vals, negative, k);
    if q == |vals| {
      RunLength(run);
      symbol := 16 * (BitLength(run) - 1);
      EobAhead(vals, negative, k, run, after);
    } else if q - k > 15 {
      symbol := ZRL;
      assert [Symbol(ZRL)] + [] == [Symbol(ZRL)];
      Behind(vals, negative, k, k + 16, [Symbol(ZRL)], [], run, after);
      assert [] + RestOfFirst(vals, negative, k + 16, run, after) == RestOfFirst(vals, negative, k + 16, run, after);
    } else {
      symbol := 16 * (q - k) + BitLength(vals[q]);
      assert BitLength(vals[q]) <= MAX_COEF_BITS;
      SymbolParts(q - k, BitLength(vals[q]));
      ValueIs(vals[q], negative[q], q - k);
      Behind(vals, negative, k, q + 1, [Symbol(symbol)], Raws(ValueBits(vals[q], negative[q])), run, after);
    }
  }

  lemma {:induction false} SymbolParts(n: nat, b: nat)
    requires b < 16
    ensures (16 * n + b) / 16 == n && (16 * n + b) % 16 == b
  {
  }

  lemma {:induction false} ValueIs(v: nat, negative: bool, r: nat)
    ensures Value(v, negative, r) == [Symbol(16 * r + BitLength(v))] + Raws(ValueBits(v, negative))
  {
  }

  lemma {:induction false} EobAhead(vals: seq<nat>, negative: seq<bool>, k: nat, run: nat, after: seq<Item>)
    requires k < |vals| == |negative| && FirstFrom(vals, negative, k, 0) == BlockCode([], [], true) && run > 0
    ensures RestOfFirst(vals, negative, k, run, after)
         == [Symbol(16 * (BitLength(run) - 1))] + (Raws(BitsOf(run, BitLength(run) - 1)) + after)
  {
    hide BitLength, BitsOf, Raws, FirstFrom;
    var symbol, bits := [Symbol(16 * (BitLength(run) - 1))], Raws(BitsOf(run, BitLength(run) - 1));
    assert EobCode(run) == symbol + bits;
    assert [] + (symbol + bits + after) == symbol + (bits + after);
  }

  lemma {:induction false} Behind(vals: seq<nat>, negative: seq<bool>, k: nat, k2: nat, a: seq<Item>, b: seq<Item>, run: nat, after: seq<Item>)
    requires k <= k2 <= |vals| == |negative|
    requires FirstFrom(vals, negative, k, 0) == Prepend(a + b, FirstFrom(vals, negative, k2, 0))
    ensures FirstFrom(vals, negative, k, 0).eob == FirstFrom(vals, negative, k2, 0).eob
    ensures RestOfFirst(vals, negative, k, run, after) == a + (b + RestOfFirst(vals, negative, k2, run, after))
  {
    hide FirstFrom, EobCode;
    var code := FirstFrom(vals, negative, k2, 0);
    var onward := if code.eob && run > 0 then EobCode(run) + after else after;
    assert a + b + code.prefix + onward == a + (b + (code.prefix + onward));
  }

  // ----- the decoder

  ghost predicate FirstEob(target: seq<Coef>, al: nat, k: nat)
    requires k <= |target|
  {
    FirstFrom(Magnitudes(target, al), Signs(target), k, 0).eob
  }

  ghost function FirstRest(target: seq<Coef>, al: nat, k: nat, run: nat, after: seq<Item>): seq<Item>
    requires k <= |target|
  {
    RestOfFirst(Magnitudes(target, al), Signs(target), k, run, after)
  }

  ghost predicate FirstComes(target: seq<Coef>, al: nat, k: nat, items: seq<Item>, run: nat, after: seq<Item>) {
    && k <= |target| && (FirstEob(target, al, k) ==> 0 < run <= MAX_EOBRUN)
    && items == FirstRest(target, al, k, run, after)
  }

  predicate SmallVals(vals: seq<nat>) {
    forall i :: 0 <= i < |vals| ==> BitLength(vals[i]) <= MAX_COEF_BITS
  }

  /** Zero from `k` on, and right before. */
  predicate Partly(block: seq<Coef>, target: seq<Coef>, al: nat, k: nat) {
    && |block| == |target| && k <= |block| && AtPrecision(block, target, al, 0, k)
    && forall i :: k <= i < |block| ==> block[i] == 0
  }

  lemma {:induction false} ZerosAreRight(block: seq<Coef>, target: seq<Coef>, al: nat, k: nat, q: nat)
    requires Partly(block, target, al, k) && k <= q <= |target|
    requires forall i :: k <= i < q ==> Magnitudes(target, al)[i] == 0
    ensures Partly(block, target, al, q)
  {
    forall i | k <= i < q
      ensures ApproxAc(target[i], al) == 0
    {
      assert Magnitudes(target, al)[i] == 0;
      ApproxAcInRange(target[i], al);
    }
    hide ApproxAc, PointAc, Magnitudes;
  }

  /** The symbol ahead, what follows it, and which coefficient it brings. */
  lemma {:induction false} TargetAhead(block: seq<Coef>, target: seq<Coef>, al: nat, k: nat, items: seq<Item>, run: nat, after: seq<Item>)
    returns (q: nat, symbol: nat, next: seq<Item>)
    requires k < |target| && SmallVals(Magnitudes(target, al)) && FirstComes(target, al, k, items, run, after)
    requires Partly(block, target, al, k)
    ensures k <= q <= |target| && items == [Symbol(symbol)] + next
    ensures q == |target| ==>
              && symbol % 16 == 0 && symbol / 16 < 15 && symbol / 16 == BitLength(run) - 1 && 0 < run <= MAX_EOBRUN
              && FirstEob(target, al, k) && next == Raws(BitsOf(run, symbol / 16)) + after && Partly(block, target, al, q)
    ensures q < |target| && q - k > 15 ==>
              && symbol == ZRL && next == FirstRest(target, al, k + 16, run, after)
              && FirstEob(target, al, k) == FirstEob(target, al, k + 16) && Partly(block, target, al, k + 16)
    ensures q < |target| && q - k <= 15 ==> ValueFollows(block, target, al, k, q, symbol, next, run, after)
  {
    hide FirstFrom, Magnitudes, ApproxAc, PointAc, BitLength, BitsOf, ValueBits, RestOfFirst, SymbolDecoding.HuffExtend, AtPrecision, Partly;
    MagnitudeBelow(target, al, k);
    var vals, negative := Magnitudes(target, al), Signs(target);
    q, symbol := FirstAhead(vals, negative, k, run, after);
    if q == |target| {
      next := Raws(BitsOf(run, BitLength(run) - 1)) + after;
      ZerosAreRight(block, target, al, k, q);
    } else if q - k > 15 {
      next := FirstRest(target, al, k + 16, run, after);
      ZerosAreRight(block, target, al, k, k + 16);
    } else {
      next := Raws(ValueBits(vals[q], negative[q])) + FirstRest(target, al, q + 1, run, after);
      ZerosAreRight(block, target, al, k, q);
      ValueRead(vals[q], negative[q]);
      SignAndMagnitude(target, al, q);
      Stored(target[q], al);
    }
  }

  lemma {:induction false} SignAndMagnitude(target: seq<Coef>, al: nat, q: nat)
    requires q < |target|
    ensures |Magnitudes(target, al)| == |Signs(target)| == |target|
    ensures Magnitudes(target, al)[q] == Abs(PointAc(target[q], al)) && (Signs(target)[q] <==> target[q] < 0)
  {
  }

  /** A value behind zeros, and the coefficient it gives. */
  ghost predicate ValueFollows(block: seq<Coef>, target: seq<Coef>, al: nat, k: nat, q: nat, symbol: nat, next: seq<Item>,
                               run: nat, after: seq<Item>)
    requires k <= q < |target|
  {
    MagnitudeBelow(target, al, q);
    var bits := ValueBits(Magnitudes(target, al)[q], Signs(target)[q]);
    && symbol / 16 == q - k && symbol % 16 == |bits| > 0
    && next == Raws(bits) + FirstRest(target, al, q + 1, run, after)
    && FirstEob(target, al, k) == FirstEob(target, al, q + 1) && Partly(block, target, al, q)
    && ToCoef(SymbolDecoding.HuffExtend(Number(bits), symbol % 16) * Pow2(al)) == ApproxAc(target[q], al)
  }

  lemma {:induction false} ValueStored(block: seq<Coef>, target: seq<Coef>, al: nat, q: nat, c: Coef)
    requires Partly(block, target, al, q) && q < |target| && c == ApproxAc(target[q], al)
    ensures Partly(block[q := c], target, al, q + 1)
  {
    hide ApproxAc;
  }

  /** One symbol and its value, or the run length that ends the block. A value behind the
      band is reported as a failure. */
  method DecodeFirstSymbol(dec: AcDecoder, block0: seq<Coef>, k0: nat, al: nat, ghost known: bool, ghost target: seq<Coef>,
                           ghost run: nat, ghost after: seq<Item>)
    returns (ok: bool, ended: bool, k: nat, block: seq<Coef>)
    requires dec.Ready() && k0 < |block0| && dec.eobrun == 0
    requires known ==>
               && dec.Tracks() && SmallVals(Magnitudes(target, al)) && FirstComes(target, al, k0, dec.rest, run, after)
               && Partly(block0, target, al, k0)
    modifies dec, dec.reader
    ensures |block| == |block0| && (ok && !ended ==> k0 < k && dec.eobrun == 0) && (ended ==> k == k0 && dec.eobrun > 0)
    ensures known ==> dec.Tracks()
    ensures known && !ended ==>
              && ok && FirstComes(target, al, k, dec.rest, run, after) && Partly(block, target, al, k)
              && FirstEob(target, al, k) == FirstEob(target, al, k0)
    ensures known && ended ==>
              && ok && FirstEob(target, al, k0) && dec.eobrun == run > 0 && dec.rest == after
              && Partly(block, target, al, |block|)
  {
    hide FirstFrom, Magnitudes, ApproxAc, PointAc, BitLength, BitsOf, ValueBits, RestOfFirst, FirstRest, FirstEob, SymbolDecoding.HuffExtend,
         Number, Pow2, ToCoef, Partly, AcDecoder.Ready, Holds, ValidTable;
    ghost var symbol, q, next: seq<Item> := 0, 0, [];
    ghost var bits: seq<Bit>, onward: seq<Item> := [], [];
    if known {
      PartlyShape(block0, target, al, k0);
      q, symbol, next := TargetAhead(block0, target, al, k0, dec.rest, run, after);
      if q < |target| && q - k0 <= 15 {
        MagnitudeBelow(target, al, q);
        bits := ValueBits(Magnitudes(target, al)[q], Signs(target)[q]);
        onward := FirstRest(target, al, q + 1, run, after);
      }
    }
    ok, ended, k, block := true, false, k0, block0;
    var s := dec.GetSymbol(known, symbol, next);
    var r := s / 16;
    s := s % 16;
    if s != 0 {
      var v := dec.GetBits(s, known, bits, onward);
      k := k0 + r;
      if k >= |block0| {
        ok := false;
        return;
      }
      block := block0[k := ToCoef(SymbolDecoding.HuffExtend(v, s) * Pow2(al))];
      if known {
        ValueStored(block0, target, al, q, block[k]);
      }
      k := k + 1;
    } else if r == 15 {
      k := k0 + 16;
    } else {
      dec.ReadRun(r, known, run, after);
      ended := true;
    }
  }

  lemma {:induction false} PartlyShape(block: seq<Coef>, target: seq<Coef>, al: nat, k: nat)
    requires Partly(block, target, al, k)
    ensures |block| == |target| && k <= |block|
  {
  }

  /** The decoder stands before a block: at its first symbol, or in a run of empty ones. */
  ghost predicate BeforeFirst(dec: AcDecoder, target: seq<Coef>, al: nat, run: nat, after: seq<Item>)
    reads dec
  {
    if dec.eobrun > 0 then dec.rest == after && Partly(seq(|target|, _ => 0), target, al, |target|)
    else FirstComes(target, al, 0, dec.rest, run, after)
  }

  lemma {:induction false} StartsPartly(block: seq<Coef>, target: seq<Coef>, al: nat)
    requires |block| == |target| && forall i :: 0 <= i < |block| ==> block[i] == 0
    ensures Partly(block, target, al, 0)
  {
  }

  lemma {:induction false} NothingComes(target: seq<Coef>, al: nat, run: nat, after: seq<Item>)
    ensures !FirstEob(target, al, |target|) && FirstRest(target, al, |target|, run, after) == after
  {
    assert [] + after == after;
  }

  /** One block of `n` coefficients. */
  method DecodeMcuAcFirst(dec: AcDecoder, n: nat, al: nat, ghost known: bool, ghost target: seq<Coef>, ghost run: nat, ghost after: seq<Item>)
    returns (ok: bool, block: seq<Coef>)
    requires dec.Ready()
    requires known ==> dec.Tracks() && |target| == n && SmallVals(Magnitudes(target, al)) && BeforeFirst(dec, target, al, run, after)
    modifies dec, dec.reader
    ensures |block| == n
    ensures known ==> dec.Tracks() && ok && dec.rest == after && AtPrecision(block, target, al, 0, n)
    ensures known ==> dec.eobrun == if old(dec.eobrun) > 0 then old(dec.eobrun) - 1 else if FirstEob(target, al, 0) then run - 1 else 0
  {
    hide FirstEob, FirstRest, Magnitudes, ApproxAc, AtPrecision, SmallVals, AcDecoder.Ready, Holds, ValidTable;
    ok, block := true, seq(n, _ => 0);
    if dec.eobrun > 0 {
      dec.eobrun := dec.eobrun - 1;
      return;
    }
    var k, ended := 0, false;
    if known {
      StartsPartly(block, target, al);
    }
    while k < n && !ended
      invariant ok && |block| == n && (ended <==> dec.eobrun > 0) && (known ==> dec.Tracks())
      invariant known && !ended ==>
                  && FirstComes(target, al, k, dec.rest, run, after) && Partly(block, target, al, k)
                  && FirstEob(target, al, k) == FirstEob(target, al, 0)
      invariant known && ended ==>
                  && FirstEob(target, al, 0) && dec.eobrun == run > 0 && dec.rest == after && Partly(block, target, al, |block|)
      decreases n - k, !ended
    {
      ok, ended, k, block := DecodeFirstSymbol(dec, block, k, al, known, target, run, after);
      if !ok {
        return;
      }
    }
    if ended {
      dec.eobrun := dec.eobrun - 1;
    }
    if known && !ended {
      NothingComes(target, al, run, after);
    }
  }

  // ----- whole scans

  function FirstCode(b: Band): (code: BlockCode)
    requires ValidBand(b)
    ensures ValidCode(code) && code.tail == []
  {
    FirstIsValid(b.vals, b.negative, 0, 0);
    FirstFrom(b.vals, b.negative, 0, 0)
  }

  function FirstCodes(bands: seq<Band>): (codes: seq<BlockCode>)
    requires ValidBands(bands)
    ensures |codes| == |bands| && forall i :: 0 <= i < |codes| ==> codes[i] == FirstCode(bands[i])
  {
    seq(|bands|, i requires 0 <= i < |bands| => FirstCode(bands[i]))
  }

  /** A first scan in a gathering or an output pass; it fails exactly on magnitudes of more
      than ten bits. */
  method FirstScan(bands: seq<Band>, gather: bool) returns (ok: bool, output: seq<Item>, counts: seq<nat>)
    requires ValidBands(bands)
    ensures ok <==> forall i :: 0 <= i < |bands| ==> SmallVals(bands[i].vals)
    ensures ok && !gather ==> output == ScanItems(FirstCodes(bands))
    ensures ok && gather ==> |counts| == 256 && forall s :: 0 <= s < 256 ==> counts[s] == CountOf(ScanItems(FirstCodes(bands)), s)
  {
    hide FirstFrom, Added, CountOf, Sent, Settled, ValidState, BitLength;
    var encoder := new AcEncoder(gather);
    ghost var codes := FirstCodes(bands);
    for i := 0 to |bands|
      invariant fresh(encoder) && fresh(encoder.bitBuffer) && encoder.Valid() && encoder.gatherStatistics == gather
      invariant encoder.st == AddedAll(codes[..i])
      invariant forall j :: 0 <= j < i ==> SmallVals(bands[j].vals)
    {
      ok := encoder.EncodeMcuAcFirst(bands[i].vals, bands[i].negative);
      if !ok {
        return false, [], [];
      }
      assert codes[..i + 1][..i] == codes[..i];
    }
    assert codes[..|bands|] == codes;
    encoder.FinishPass();
    ok, output, counts := true, encoder.output, encoder.counts;
  }

  /** Standing before a block whose code is known. */
  lemma {:induction false} StandsBeforeFirst(dec: AcDecoder, groups: seq<Group>, m: nat, target: seq<Coef>, al: nat, codes: seq<BlockCode>)
    requires 0 < |target| < BLOCK_SIZE && Standing(dec, groups, m) && groups != []
    requires Codes(groups[0])[m] == FirstCode(Band(Magnitudes(target, al), Signs(target)))
    requires Left(groups, m) == codes && forall i :: 0 <= i < |codes| ==> codes[i].tail == []
    ensures BeforeFirst(dec, target, al, RunOf(groups), AfterBlock(groups, m))
    ensures FirstEob(target, al, 0) <==> groups[0].Run?
    ensures m < |Codes(groups[0])| && forall i :: 0 <= i < |groups| ==> ValidGroup(groups[i])
    ensures groups[0].Run? ==>
              (if dec.eobrun > 0 then dec.eobrun - 1 else RunOf(groups) - 1) == |groups[0].codes| - m - 1
    ensures groups[0].Single? ==> dec.eobrun == 0
  {
    hide FirstFrom, Magnitudes, EobCode, Flat, TailBits, AtPrecision, Partly;
    assert ValidGroup(groups[0]);
    var after := AfterBlock(groups, m);
    FlatFirst(groups);
    match groups[0]
    case Single(code) =>
      assert [] + Flat(groups[1..]) == Flat(groups[1..]);
    case Run(runCodes) =>
      TailsAhead(groups, m, codes);
      if m == 0 {
        assert runCodes[0..] == runCodes;
        var p, e := runCodes[0].prefix, EobCode(|runCodes|);
        assert p + e + [] + Flat(groups[1..]) == p + (e + Flat(groups[1..]));
        assert [] + Flat(groups[1..]) == Flat(groups[1..]);
      } else {
        assert [] + Flat(groups[1..]) == Flat(groups[1..]);
        EmptyBlock(target, al);
      }
  }

  /** In a first scan no correction bits wait. */
  lemma {:induction false} TailsAhead(groups: seq<Group>, m: nat, codes: seq<BlockCode>)
    requires groups != [] && groups[0].Run? && m < |groups[0].codes| && Left(groups, m) == codes
    requires forall i :: 0 <= i < |codes| ==> codes[i].tail == []
    ensures TailBits(groups[0].codes[m..]) == [] && TailBits(groups[0].codes[m + 1..]) == []
  {
    hide TailBits;
    var run := groups[0].codes;
    forall i | m <= i < |run|
      ensures run[i].tail == []
    {
      assert codes[i - m] == run[i];
    }
    NoTails(run[m..]);
    NoTails(run[m + 1..]);
  }

  lemma {:induction false} NoTails(codes: seq<BlockCode>)
    requires forall i :: 0 <= i < |codes| ==> codes[i].tail == []
    ensures TailBits(codes) == []
  {
    hide TailBits;
    TailBitsNone();
    if codes != [] {
      var n := |codes| - 1;
      NoTails(codes[..n]);
      TailBitsAppend(codes[..n], codes[n]);
      assert codes == codes[..n] + [codes[n]];
    }
  }

  /** A block without a prefix is zero. */
  lemma {:induction false} EmptyBlock(target: seq<Coef>, al: nat)
    requires |target| > 0 && FirstFrom(Magnitudes(target, al), Signs(target), 0, 0).prefix == []
    ensures Partly(seq(|target|, _ => 0), target, al, |target|)
  {
    var vals := Magnitudes(target, al);
    SomePrefix(vals, Signs(target), 0, 0);
    hide FirstFrom, Magnitudes;
    StartsPartly(seq(|target|, _ => 0), target, al);
    MagnitudeBelow(target, al, 0);
    ZerosAreRight(seq(|target|, _ => 0), target, al, 0, |target|);
  }

  /** Decoding a whole scan; given an encoder's, all its coefficients. */
  method DecodeFirstScan(sizes: seq<nat>, al: nat, decoding: DTable, lengths: seq<nat>, input: seq<Bit>,
                         ghost known: bool, ghost table: Table, ghost targets: seq<seq<Coef>>)
    returns (ok: bool, blocks: seq<seq<Coef>>)
    requires Decodes(decoding, lengths, decoding.huffval)
    requires known ==> ValidTargets(targets) && |sizes| == |targets| && forall i :: 0 <= i < |sizes| ==> sizes[i] == |targets[i]|
    requires known ==> forall i :: 0 <= i < |targets| ==> SmallVals(Magnitudes(targets[i], al))
    requires known ==> ScanHeld(decoding, lengths, input, table, ScanItems(FirstCodes(BandsOf(targets, al))))
    ensures known ==> ok && BlocksAtPrecision(blocks, targets, al)
  {
    hide Standing, Left, AtPrecision, Magnitudes, Signs, ScanItems, FirstFrom, RunOf, AfterBlock, NextStand, Codes, BeforeFirst, SmallVals,
         Decodes, ValidTable, Holds;
    ghost var codes := if known then FirstCodes(BandsOf(targets, al)) else [];
    var decoder := new AcDecoder(decoding, lengths, input, table, if known then ScanItems(codes) else []);
    ghost var groups, m := [], 0;
    if known {
      groups := ScanStart(decoder, codes);
    }
    ok, blocks := true, [];
    for i := 0 to |sizes|
      invariant ok && fresh(decoder) && fresh(decoder.reader) && |blocks| == i && decoder.Ready()
      invariant known ==> decoder.Tracks() && Standing(decoder, groups, m) && LeftFits(groups, m) && Left(groups, m) == codes[i..]
      invariant known ==>
                  forall j :: 0 <= j < i ==> |blocks[j]| == |targets[j]| && AtPrecision(blocks[j], targets[j], al, 0, |blocks[j]|)
    {
      ghost var after, run := [], 0;
      if known {
        AcRefineDecoding.Fits(decoder, groups, m);
        CodeAhead(groups, m, codes, i);
        StandsBeforeFirst(decoder, groups, m, targets[i], al, codes[i..]);
        after, run := AfterBlock(groups, m), RunOf(groups);
      }
      var block;
      ok, block := DecodeMcuAcFirst(decoder, sizes[i], al, known, if known then targets[i] else [], run, after);
      if !ok {
        return;
      }
      if known {
        StandsNext(decoder, groups, m);
        AcRefineDecoding.Fits(decoder, NextStand(groups, m).0, NextStand(groups, m).1);
        assert codes[i..][1..] == codes[i + 1..];
        groups, m := NextStand(groups, m).0, NextStand(groups, m).1;
      }
      blocks := blocks + [block];
    }
  }
}
