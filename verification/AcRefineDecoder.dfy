/** The progressive Huffman decoder's AC refinement (jdphuff.c, decode_mcu_AC_refine),
    and the main result: it undoes the encoder's scan. */
module AcRefineDecoding {
  import opened Shifts
  import opened ProbabilityTable
  import opened BitStrings
  import opened Binarisation
  import opened McuDecoding
  import opened EobRuns
  import opened AcRefineStream
  import opened ProgressiveAc
  import opened CodeLengths
  import opened DerivedTable
  import opened DecodingTable
  import opened SymbolDecoding
  import opened AcBits

  /** Magnitudes and signs of a band at precision `al`. */
  function Magnitudes(target: seq<Coef>, al: nat): (vals: seq<nat>)
    ensures |vals| == |target| && forall k :: 0 <= k < |vals| ==> vals[k] == Abs(PointAc(target[k], al))
  {
    seq(|target|, k requires 0 <= k < |target| => Abs(PointAc(target[k], al)))
  }

  function Signs(target: seq<Coef>): (negative: seq<bool>)
    ensures |negative| == |target| && forall k :: 0 <= k < |negative| ==> (negative[k] <==> target[k] < 0)
  {
    seq(|target|, k requires 0 <= k < |target| => target[k] < 0)
  }

  predicate AtPrecision(block: seq<Coef>, target: seq<Coef>, al: nat, from: int, to: int)
    requires |block| == |target|
  {
    forall k :: 0 <= k < |block| && from <= k < to ==> block[k] == ApproxAc(target[k], al)
  }

  // ----- single coefficients

  /** The correction is made unless the bit is set already, as two's complement shows it. */
  function CorrectedOnce(c: Coef, al: nat): Coef {
    if c / Pow2(al) % 2 == 0 then Corrected(c, al) else c
  }

  lemma {:induction false} CorrectionIsDue(x: Coef, al: nat)
    ensures ApproxAc(x, al + 1) / Pow2(al) % 2 == 0
  {
    Pow2Double(al);
    var q: int, p: int := PointAc(x, al + 1), Pow2(al);
    hide PointAc, Pow2;
    assert q * (2 * p) == (2 * q) * p;
    assert (2 * q + 1) * p == (2 * q) * p + p;
    QuotientIs(q * (2 * p), p, 2 * q);
  }

  /** What the decoder makes of a coefficient is its next precision. */
  lemma {:induction false} CoefRefined(x: Coef, c: Coef, al: nat)
    requires c == ApproxAc(x, al + 1)
    ensures var v := Abs(PointAc(x, al));
            && (c != 0 <==> v > 1)
            && (v == 0 ==> ApproxAc(x, al) == 0)
            && (v == 1 ==> ApproxAc(x, al) == NewCoef(if x < 0 then 1 else 0, al))
            && (v > 1 ==> ApproxAc(x, al) == if v % 2 == 1 then CorrectedOnce(c, al) else c)
  {
    RefinementValues(x, c, al);
    CorrectionIsDue(x, al);
    hide PointAc, ApproxAc, NewCoef, Corrected, Pow2;
  }

  // ----- run lengths

  /** A run length is its leading bit and the bits below it. */
  lemma {:induction false} RunLengthParts(run: nat)
    requires 0 < run <= MAX_EOBRUN
    ensures var r := BitLength(run) - 1; 0 <= r <= 14 && Pow2(r) + Number(BitsOf(run, r)) == run
  {
    hide Shl, Pow2, BitsOf, BitLength, Number;
    RunLength(run);
    var r: nat := BitLength(run) - 1;
    NumberOfBits(run, r);
    Pow2Double(r);
    TopBit(run, Pow2(r));
  }

  lemma {:induction false} TopBit(run: nat, p: nat)
    requires p <= run < 2 * p
    ensures p + run % p == run
  {
    QuotientIs(run, p, 1);
    assert run == run / p * p + run % p;
  }

  class AcDecoder {
    const decoding: DTable
    const lengths: seq<nat>          // how many codes of each length its table has
    const reader: BitReader
    var eobrun: nat
    ghost const table: Table         // the encoder's table
    ghost var rest: seq<Item>        // what the encoder sent that is still to be read

    ghost predicate Ready() {
      Decodes(decoding, lengths, decoding.huffval)
    }

    /** The bits ahead start with an encoder's items. */
    ghost predicate Tracks()
      reads this`rest, reader
    {
      ValidTable(table) && table.bits == lengths && table.huffval == decoding.huffval && Holds(table, rest, reader.rest)
    }

    constructor (decoding: DTable, lengths: seq<nat>, input: seq<Bit>, ghost table: Table, ghost items: seq<Item>)
      ensures this.decoding == decoding && this.lengths == lengths && this.table == table && fresh(reader)
      ensures eobrun == 0 && rest == items && reader.rest == input
    {
      this.decoding, this.lengths, this.table := decoding, lengths, table;
      reader := new BitReader(input);
      eobrun, rest := 0, items;
    }

    method GetSymbol(ghost known: bool, ghost expected: nat, ghost after: seq<Item>) returns (s: nat)
      requires Ready() && (known ==> Tracks() && rest == [Symbol(expected)] + after)
      modifies `rest, reader
      ensures known ==> Tracks() && s == expected && rest == after
    {
      hide Decodes, Sizes, Ahead, Holds, ValidTable, Nondecreasing;
      ghost var p := 0;
      if known {
        p := SymbolHeld(table, rest, reader.rest);
      }
      SymbolsNatural(decoding, lengths);
      s := reader.HuffDecode(decoding, lengths);
      if known {
        assert rest[1..] == after;
        rest := after;
      }
    }

    method GetBit(ghost known: bool, ghost expected: Bit, ghost after: seq<Item>) returns (bit: Bit)
      requires known ==> Tracks() && rest == [Raw(expected)] + after
      modifies `rest, reader
      ensures known ==> Tracks() && bit == expected && rest == after
    {
      hide Holds, ValidTable;
      if known {
        BitHeld(table, rest, reader.rest);
      }
      bit := reader.GetBit();
      if known {
        assert rest[1..] == after;
        rest := after;
      }
    }

    method GetBits(n: nat, ghost known: bool, ghost bits: seq<Bit>, ghost after: seq<Item>) returns (v: nat)
      requires known ==> Tracks() && |bits| == n && rest == Raws(bits) + after
      modifies `rest, reader
      ensures known ==> Tracks() && v == Number(bits) && rest == after
    {
      hide Holds, ValidTable;
      v := 0;
      for i := 0 to n
        invariant known ==> Tracks() && v == Number(bits[..i]) && rest == Raws(bits[i..]) + after
      {
        ghost var expected: Bit := if known then bits[i] else 0;
        if known {
          assert Raws(bits[i..]) == [Raw(bits[i])] + Raws(bits[i + 1..]);
          assert Raws(bits[i..]) + after == [Raw(bits[i])] + (Raws(bits[i + 1..]) + after);
          assert bits[..i + 1][..i] == bits[..i];
        }
        var bit := GetBit(known, expected, if known then Raws(bits[i + 1..]) + after else []);
        v := 2 * v + bit;
      }
      if known {
        assert bits[..n] == bits;
        assert Raws(bits[n..]) + after == after;
      }
    }

    /** An already nonzero coefficient takes its next bit. */
    method Correct(c: Coef, al: nat, ghost known: bool, ghost x: Coef, ghost after: seq<Item>) returns (r: Coef)
      requires known ==> Tracks() && c == ApproxAc(x, al + 1) && c != 0 && rest == [Raw(Abs(PointAc(x, al)) % 2)] + after
      modifies `rest, reader
      ensures known ==> Tracks() && r == ApproxAc(x, al) && rest == after
    {
      hide PointAc, ApproxAc, Corrected, Pow2, Tracks;
      var bit := GetBit(known, if known then Abs(PointAc(x, al)) % 2 else 0, after);
      r := c;
      if known {
        CoefRefined(x, c, al);
      }
      if bit == 1 && c / Pow2(al) % 2 == 0 {
        r := Corrected(c, al);
      }
    }

    /** Advance over already nonzero coefficients, correcting them, and over `r0` zeros,
        up to the zero that follows. */
    method Skip(block0: seq<Coef>, k0: nat, r0: nat, al: nat, ghost known: bool, ghost target: seq<Coef>, ghost q: nat, ghost after: seq<Item>)
      returns (k: nat, block: seq<Coef>)
      requires k0 < |block0|
      requires known ==> Tracks() && LandsAt(block0, target, al, k0, k0, q, r0, rest, after)
      modifies `rest, reader
      ensures k0 <= k && |block| == |block0|
      ensures known ==> Tracks() && k == q && rest == after && AtPrecision(block, target, al, k0, q)
                        && forall i :: (0 <= i < k0 || q <= i < |block|) ==> block[i] == block0[i]
    {
      assert known ==> |target| == |block0|;
      hide Corrections, Zeros, Magnitudes, ApproxAc, PointAc, Pow2, LandsAt, AtPrecision, Tracks;
      var r: int := r0;
      k, block := k0, block0;
      while true
        invariant k0 <= k < |block| == |block0|
        invariant known ==> Tracks() && |target| == |block| && LandsAt(block, target, al, k0, k, q, r, rest, after)
        invariant known ==> forall i :: (0 <= i < k0 || k <= i < |block|) ==> block[i] == block0[i]
        decreases |block| - k
      {
        ghost var next, made := [], 0;
        if known {
          next, made := LandStep(block, target, al, k0, k, q, r, rest, after);
        }
        if block[k] != 0 {
          var c := Correct(block[k], al, known, if known then target[k] else 0, next);
          block := block[k := c];
        } else {
          r := r - 1;
          if r < 0 {
            break;
          }
          assert block == block[k := 0];
        }
        k := k + 1;
        if k >= |block| {
          break;
        }
      }
    }

    /** After the end-of-block: a correction bit for each already nonzero coefficient. */
    method CorrectRest(block0: seq<Coef>, k0: nat, al: nat, ghost known: bool, ghost target: seq<Coef>, ghost after: seq<Item>)
      returns (block: seq<Coef>)
      requires k0 <= |block0|
      requires known ==> Tracks() && OnStretch(block0, target, al, k0, k0, |block0|)
                         && rest == Raws(Corrections(Magnitudes(target, al), k0, |block0|)) + after
      modifies `rest, reader
      ensures |block| == |block0|
      ensures known ==> Tracks() && rest == after && AtPrecision(block, target, al, k0, |block|)
                        && forall i :: 0 <= i < k0 ==> block[i] == block0[i]
    {
      hide Corrections, Zeros, Magnitudes, ApproxAc, PointAc, Pow2, Tracks;
      ghost var vals, q := Magnitudes(target, al), |block0|;
      block := block0;
      for k := k0 to |block0|
        invariant |block| == |block0|
        invariant known ==> Tracks() && OnStretch(block, target, al, k0, k, q) && rest == Raws(Corrections(vals, k, q)) + after
                            && forall i :: 0 <= i < k0 ==> block[i] == block0[i]
      {
        ghost var next := if known then Raws(Corrections(vals, k + 1, q)) + after else after;
        if known {
          StretchStep(block, target, al, k0, k, q, after);
        }
        if block[k] != 0 {
          var c := Correct(block[k], al, known, if known then target[k] else 0, next);
          block := block[k := c];
        }
      }
      if known {
        NoCorrections(vals, q, after);
      }
    }

    /** EOBr: the run length is 2^r and r appended bits. */
    method ReadRun(r: nat, ghost known: bool, ghost run: nat, ghost after: seq<Item>)
      requires known ==> Tracks() && 0 < run <= MAX_EOBRUN && r == BitLength(run) - 1 && rest == Raws(BitsOf(run, r)) + after
      modifies `eobrun, `rest, reader
      ensures known ==> Tracks() && eobrun == run && rest == after
      ensures eobrun > 0
    {
      hide BitLength, BitsOf, Number, Pow2, Holds, ValidTable;
      if known {
        RunLengthParts(run);
      }
      eobrun := Pow2(r);
      if r != 0 {
        var v := GetBits(r, known, if known then BitsOf(run, r) else [], after);
        eobrun := eobrun + v;
      } else if known {
        NoBits(run, after);
      }
    }

    /** One symbol and what belongs to it, or the run length that ends the block. */
    method DecodeSymbol(block0: seq<Coef>, k0: nat, al: nat, ghost known: bool, ghost target: seq<Coef>, ghost run: nat, ghost after: seq<Item>)
      returns (ended: bool, k: nat, block: seq<Coef>)
      requires Ready() && k0 < |block0| && eobrun == 0
      requires known ==> Tracks() && |target| == |block0| && Comes(target, al, k0, rest, run, after)
                         && AtPrecision(block0, target, al + 1, k0, |block0|)
      modifies `eobrun, `rest, reader
      ensures |block| == |block0| && (!ended ==> k0 < k && eobrun == 0) && (ended ==> k == k0)
      ensures known ==> Tracks() && forall i :: (0 <= i < k0 || k <= i < |block|) ==> block[i] == block0[i]
      ensures known && ended ==> eobrun == run > 0 && block == block0 && Remaining(target, al, k0).eob
                                 && NoneNew(Magnitudes(target, al), k0, |block|)
                                 && rest == Raws(Corrections(Magnitudes(target, al), k0, |block|)) + after
      ensures known && !ended ==> k <= |block| && Comes(target, al, k, rest, run, after)
                                  && AtPrecision(block, target, al, k0, k)
                                  && Remaining(target, al, k).eob == Remaining(target, al, k0).eob
    {
      hide Corrections, Zeros, Magnitudes, ApproxAc, PointAc, Pow2, BitLength, BitsOf, NewCoef, EobRuns.RefineFrom, Holds, ValidTable, Ready;
      ghost var symbol, first, then_ := 0, NoSymbol, [];
      ghost var q := 0;
      if known {
        symbol, first, q, then_ := SymbolAhead(block0, target, al, k0, rest, run, after);
      }
      ended, k, block := false, k0 + 1, block0;
      var s := GetSymbol(known, symbol, then_);
      var r, t := s / 16, s % 16;
      var bit: Bit := 0;
      ghost var onward := if known && !first.NoSymbol? then Raws(Corrections(Magnitudes(target, al), k0, q)) + RestFrom(target, al, q + 1, run, after) else [];
      if t != 0 {
        bit := GetBit(known, if known && target[q] < 0 then 0 else 1, onward);
      } else if r != 15 {
        ended, k := true, k0;
        ReadRun(r, known, run, if known then Raws(Corrections(Magnitudes(target, al), k0, |target|)) + after else []);
        return;
      }
      k, block := Skip(block0, k0, r, al, known, target, q, if known then RestFrom(target, al, q + 1, run, after) else []);
      if t != 0 && k < |block| {
        block := block[k := NewCoef(1 - bit, al)];
      }
      k := k + 1;
      if known {
        AtTarget(block0, block, target, al, k0, q, t, bit);
      }
    }

    /** The decoder stands before a block: at its first symbol, or in a run. */
    ghost predicate Before(target: seq<Coef>, al: nat, run: nat, after: seq<Item>)
      reads this
    {
      if eobrun == 0 then Comes(target, al, 0, rest, run, after)
      else
        && NoneNew(Magnitudes(target, al), 0, |target|)
        && rest == Raws(Corrections(Magnitudes(target, al), 0, |target|)) + after
    }

    /** One block. */
    method DecodeMcuAcRefine(block0: seq<Coef>, al: nat, ghost known: bool, ghost target: seq<Coef>, ghost run: nat, ghost after: seq<Item>)
      returns (ok: bool, block: seq<Coef>)
      requires Ready() && (known ==> Tracks() && |target| == |block0| && AtPrecision(block0, target, al + 1, 0, |block0|) && Before(target, al, run, after))
      modifies this, reader
      ensures |block| == |block0|
      ensures known ==> Tracks() && ok && rest == after && AtPrecision(block, target, al, 0, |block|)
      ensures known ==> eobrun == if old(eobrun) > 0 then old(eobrun) - 1 else if Remaining(target, al, 0).eob then run - 1 else 0
    {
      hide Corrections, Zeros, Magnitudes, ApproxAc, PointAc, Remaining, RestFrom, Holds, ValidTable, Ready;
      var k, ended := 0, eobrun > 0;
      ok, block := true, block0;
      while k < |block0| && !ended
        invariant ok && k <= |block| == |block0| && (!ended ==> eobrun == 0)
        invariant known ==> Tracks() && AtPrecision(block, target, al, 0, k) && AtPrecision(block, target, al + 1, k, |block|)
        invariant known && !ended ==> Comes(target, al, k, rest, run, after) && Remaining(target, al, k).eob == Remaining(target, al, 0).eob
        invariant old(eobrun) > 0 ==> ended && eobrun == old(eobrun)
        invariant known && ended ==> (old(eobrun) == 0 ==> eobrun == run) && eobrun > 0
        invariant known && ended ==> NoneNew(Magnitudes(target, al), k, |block|)
        invariant known && ended ==> rest == Raws(Corrections(Magnitudes(target, al), k, |block|)) + after
        invariant known && ended && old(eobrun) == 0 ==> Remaining(target, al, 0).eob
        decreases |block| - k, !ended
      {
        ended, k, block := DecodeSymbol(block, k, al, known, target, run, after);
        if k > |block| {
          ok := false;
          return;
        }
      }
      if known && !ended {
        NothingRemains(target, al, run, after);
      }
      if eobrun > 0 {
        if known {
          WholeStretch(block, target, al, k);
        }
        block := CorrectRest(block, k, al, known, target, after);
        eobrun := eobrun - 1;
      }
    }
  }

  lemma {:induction false} SymbolsNatural(t: DTable, lengths: seq<nat>)
    requires Decodes(t, lengths, t.huffval)
    ensures Nondecreasing(Sizes(lengths, LONGEST)) && |Sizes(lengths, LONGEST)| <= 256
  {
    hide Sizes;
    DecodingFacts(t, lengths);
  }

  lemma {:induction false} NothingRemains(target: seq<Coef>, al: nat, run: nat, after: seq<Item>)
    ensures Remaining(target, al, |target|) == BlockCode([], [], false)
    ensures RestFrom(target, al, |target|, run, after) == after
  {
    assert [] + after == after;
  }

  lemma {:induction false} WholeStretch(block: seq<Coef>, target: seq<Coef>, al: nat, k: nat)
    requires |block| == |target| && k <= |block| && NoneNew(Magnitudes(target, al), k, |block|)
    requires AtPrecision(block, target, al + 1, k, |block|)
    ensures OnStretch(block, target, al, k, k, |block|)
  {
  }



  // ----- what comes behind position k

  /** The rest of the block's code from `k` on, nothing pending. */
  ghost function Remaining(target: seq<Coef>, al: nat, k: nat): BlockCode
    requires k <= |target|
  {
    var vals := Magnitudes(target, al);
    EobRuns.RefineFrom(vals, Signs(target), LastNew(vals, |vals|), k, 0, [])
  }

  /** An end-of-block is the first of its run, or shares in none. */
  ghost function RestFrom(target: seq<Coef>, al: nat, k: nat, run: nat, after: seq<Item>): seq<Item>
    requires k <= |target|
  {
    var code := Remaining(target, al, k);
    code.prefix + if code.eob && run > 0 then EobCode(run) + (Raws(code.tail) + after) else after
  }

  ghost predicate Comes(target: seq<Coef>, al: nat, k: nat, items: seq<Item>, run: nat, after: seq<Item>) {
    && k <= |target| && (Remaining(target, al, k).eob ==> 0 < run <= MAX_EOBRUN)
    && items == RestFrom(target, al, k, run, after)
  }

  lemma {:induction false} NoBits(run: nat, after: seq<Item>)
    ensures Raws(BitsOf(run, 0)) + after == after && Number(BitsOf(run, 0)) == 0
  {
  }

  /** Coefficients from k0 refined up to `k`, the others up to `q` still to be, none of
      those newly nonzero. */
  ghost predicate OnStretch(block: seq<Coef>, target: seq<Coef>, al: nat, k0: nat, k: nat, q: nat) {
    && |block| == |target| && k0 <= k <= q <= |block|
    && NoneNew(Magnitudes(target, al), k0, q)
    && AtPrecision(block, target, al, k0, k) && AtPrecision(block, target, al + 1, k, |block|)
  }

  /** Behind `r` zeros comes the zero at `q`, and `items` hold the corrections on the way. */
  ghost predicate LandsAt(block: seq<Coef>, target: seq<Coef>, al: nat, k0: nat, k: nat, q: nat, r: int,
                          items: seq<Item>, after: seq<Item>)
  {
    var vals := Magnitudes(target, al);
    && OnStretch(block, target, al, k0, k, q) && q < |block| && vals[q] <= 1
    && r == Zeros(vals, k, q) && items == Raws(Corrections(vals, k, q)) + after
  }

  lemma {:induction false} StretchStep(block: seq<Coef>, target: seq<Coef>, al: nat, k0: nat, k: nat, q: nat, after: seq<Item>)
    requires OnStretch(block, target, al, k0, k, q) && k < |block|
    requires k == q ==> Magnitudes(target, al)[q] <= 1
    ensures var vals := Magnitudes(target, al); var v := Abs(PointAc(target[k], al));
            && |vals| == |block| && (block[k] != 0 <==> v > 1) && block[k] == ApproxAc(target[k], al + 1)
            && (k == q ==> block[k] == 0 && Zeros(vals, k, q) == 0 && Raws(Corrections(vals, k, q)) + after == after)
            && (k < q ==>
                  && (v <= 1 ==> ApproxAc(target[k], al) == 0)
                  && Zeros(vals, k, q) == Zeros(vals, k + 1, q) + (if v > 1 then 0 else 1)
                  && Raws(Corrections(vals, k, q)) + after
                     == (if v > 1 then [Raw(v % 2)] else []) + (Raws(Corrections(vals, k + 1, q)) + after))
  {
    var vals := Magnitudes(target, al);
    assert vals[k] == Abs(PointAc(target[k], al));
    assert k == q ==> vals[k] <= 1;
    assert k < q ==> vals[k] != 1;
    CoefRefined(target[k], block[k], al);
    hide Corrections, Zeros, ApproxAc, PointAc, NewCoef, CorrectedOnce, Magnitudes, Raws;
    CorrectionsStep(vals, k, q, after);
  }

  lemma {:induction false} CorrectionsStep(vals: seq<nat>, k: nat, q: nat, after: seq<Item>)
    requires k <= q <= |vals|
    ensures k == q ==> Zeros(vals, k, q) == 0 && Raws(Corrections(vals, k, q)) + after == after
    ensures k < q ==>
              && Zeros(vals, k, q) == Zeros(vals, k + 1, q) + (if vals[k] == 0 then 1 else 0)
              && Raws(Corrections(vals, k, q)) + after
                 == (if vals[k] > 1 then [Raw(vals[k] % 2)] else []) + (Raws(Corrections(vals, k + 1, q)) + after)
  {
    hide Corrections, Zeros, Raws;
    if k < q {
      SplitCounts(vals, k, k + 1, q);
      OneCount(vals, k);
      RawsAhead(Corrections(vals, k, k + 1), Corrections(vals, k + 1, q), after);
      OneRaw(vals[k] % 2);
    } else {
      NoCorrections(vals, k, after);
    }
  }

  lemma {:induction false} RawsAhead(one: seq<Bit>, more: seq<Bit>, after: seq<Item>)
    ensures Raws(one + more) + after == Raws(one) + (Raws(more) + after)
  {
    assert Raws(one + more) == Raws(one) + Raws(more);
  }

  lemma {:induction false} OneRaw(bit: Bit)
    ensures Raws([bit]) == [Raw(bit)] && Raws([]) == []
  {
  }

  /** One step of skipping: either the target is reached, or the coefficient is passed. */
  ghost predicate Passed(block: seq<Coef>, target: seq<Coef>, al: nat, k: nat, items: seq<Item>, next: seq<Item>, c: Coef)
    requires k < |block| == |target|
  {
    && c == ApproxAc(target[k], al) && block[k] == ApproxAc(target[k], al + 1)
    && if block[k] == 0 then c == 0 && items == next else items == [Raw(Abs(PointAc(target[k], al)) % 2)] + next
  }

  lemma {:induction false} LandStep(block: seq<Coef>, target: seq<Coef>, al: nat, k0: nat, k: nat, q: nat, r: int, items: seq<Item>, after: seq<Item>)
    returns (next: seq<Item>, c: Coef)
    requires k < |block| == |target| && LandsAt(block, target, al, k0, k, q, r, items, after)
    ensures k0 <= k <= q < |block|
    ensures k == q ==> block[k] == 0 && r == 0 && items == after && AtPrecision(block, target, al, k0, q)
    ensures k < q ==> Passed(block, target, al, k, items, next, c) && (block[k] == 0 ==> r > 0)
    ensures k < q ==> LandsAt(block[k := c], target, al, k0, k + 1, q, if block[k] == 0 then r - 1 else r, next, after)
  {
    hide Corrections, Zeros, ApproxAc, PointAc, Magnitudes, AtPrecision, NoneNew;
    StretchStep(block, target, al, k0, k, q, after);
    ApproxAcInRange(target[k], al);
    next, c := if k < q then Raws(Corrections(Magnitudes(target, al), k + 1, q)) + after else after, ApproxAc(target[k], al);
    if k < q {
      assert block[k] == 0 ==> items == [] + next;
      PrecisionStep(block, target, al, k0, k);
      MagnitudeBelow(target, al, q);
    }
  }

  lemma {:induction false} MagnitudeBelow(target: seq<Coef>, al: nat, q: nat)
    ensures |Magnitudes(target, al)| == |target|
  {
  }

  lemma {:induction false} NoneRefined(block: seq<Coef>, target: seq<Coef>, al: nat, k: nat)
    requires |block| == |target|
    ensures AtPrecision(block, target, al, k, k)
  {
  }

  lemma {:induction false} PrecisionStep(block: seq<Coef>, target: seq<Coef>, al: nat, k0: nat, k: nat)
    requires k0 <= k < |block| == |target| && AtPrecision(block, target, al, k0, k) && AtPrecision(block, target, al + 1, k, |block|)
    ensures var b := block[k := ApproxAc(target[k], al)];
            AtPrecision(b, target, al, k0, k + 1) && AtPrecision(b, target, al + 1, k + 1, |block|)
  {
    hide ApproxAc;
  }

  lemma {:induction false} OneCount(vals: seq<nat>, k: nat)
    requires k < |vals|
    ensures Zeros(vals, k, k + 1) == if vals[k] == 0 then 1 else 0
    ensures Corrections(vals, k, k + 1) == if vals[k] > 1 then [vals[k] % 2] else []
  {
    assert Corrections(vals, k, k) == [];
  }

  lemma {:induction false} NoCorrections(vals: seq<nat>, q: nat, after: seq<Item>)
    requires q <= |vals|
    ensures Raws(Corrections(vals, q, q)) + after == after && Zeros(vals, q, q) == 0
  {
  }

  /** The symbol ahead, where it leads, and what follows it. */
  lemma {:induction false} SymbolAhead(block: seq<Coef>, target: seq<Coef>, al: nat, k: nat, items: seq<Item>, run: nat, after: seq<Item>)
    returns (symbol: nat, first: First, q: nat, then_: seq<Item>)
    requires k < |target| == |block| && Comes(target, al, k, items, run, after) && AtPrecision(block, target, al + 1, k, |block|)
    ensures items == [Symbol(symbol)] + then_
    ensures first.NoSymbol? ==>
              && symbol == 16 * (BitLength(run) - 1) && 0 < run <= MAX_EOBRUN && BitLength(run) <= 15
              && then_ == Raws(BitsOf(run, BitLength(run) - 1)) + (Raws(Corrections(Magnitudes(target, al), k, |target|)) + after)
              && NoneNew(Magnitudes(target, al), k, |target|) && Remaining(target, al, k).eob
    ensures !first.NoSymbol? ==>
              && k <= q < |target| == |Magnitudes(target, al)| && Remaining(target, al, q + 1).eob == Remaining(target, al, k).eob
              && LandsAt(block, target, al, k, k, q, symbol / 16,
                         Raws(Corrections(Magnitudes(target, al), k, q)) + RestFrom(target, al, q + 1, run, after), RestFrom(target, al, q + 1, run, after))
              && symbol % 16 == Magnitudes(target, al)[q] && (symbol % 16 == 0 ==> symbol / 16 == 15)
              && then_ == (if symbol % 16 == 1 then [Raw(if target[q] < 0 then 0 else 1)] else [])
                          + (Raws(Corrections(Magnitudes(target, al), k, q)) + RestFrom(target, al, q + 1, run, after))
  {
    hide Corrections, Zeros, Magnitudes, ApproxAc, PointAc, BitLength, BitsOf, EobRuns.RefineFrom, LastNew, AtPrecision, Signs;
    MagnitudeBelow(target, al, k);
    SignsOf(target);
    NoneRefined(block, target, al, k);
    var vals, negative := Magnitudes(target, al), Signs(target);
    var last := LastNew(vals, |vals|);
    StretchEmpty(vals, k);
    first := NextSymbol(vals, negative, last, k, k);
    symbol, q, then_ := 0, 0, [];
    match first
    case NoSymbol =>
      RunLength(run);
      symbol := 16 * (BitLength(run) - 1);
      then_ := Raws(BitsOf(run, BitLength(run) - 1)) + (Raws(Corrections(vals, k, |vals|)) + after);
    case ZeroRun(p) =>
      q, symbol := p, ZRL;
      then_ := AfterSymbol([Symbol(ZRL)], [], target, al, k, q, items, run, after);
    case NewValue(p) =>
      q, symbol := p, 16 * Zeros(vals, k, p) + 1;
      assert symbol / 16 == Zeros(vals, k, p) && symbol % 16 == 1;
      var sign := [Raw(if negative[q] then 0 else 1)];
      assert [Symbol(symbol), Raw(if negative[q] then 0 else 1)] == [Symbol(symbol)] + sign;
      then_ := AfterSymbol([Symbol(symbol)], sign, target, al, k, q, items, run, after);
  }

  /** What is behind a symbol that lands at `q`. */
  lemma {:induction false} AfterSymbol(symbol: seq<Item>, sign: seq<Item>, target: seq<Coef>, al: nat, k: nat, q: nat,
                                       items: seq<Item>, run: nat, after: seq<Item>) returns (then_: seq<Item>)
    requires k <= q < |target| == |Magnitudes(target, al)| && items == RestFrom(target, al, k, run, after)
    requires var here, code := Remaining(target, al, k), Remaining(target, al, q + 1);
             && here.prefix == symbol + sign + Raws(Corrections(Magnitudes(target, al), k, q)) + code.prefix
             && here.eob == code.eob && here.tail == code.tail
    ensures then_ == sign + (Raws(Corrections(Magnitudes(target, al), k, q)) + RestFrom(target, al, q + 1, run, after))
    ensures items == symbol + then_
  {
    hide Corrections, Magnitudes, Raws, EobCode, Remaining;
    var bits, code := Raws(Corrections(Magnitudes(target, al), k, q)), Remaining(target, al, q + 1);
    then_ := sign + (bits + RestFrom(target, al, q + 1, run, after));
    var behind := if code.eob && run > 0 then EobCode(run) + (Raws(code.tail) + after) else after;
    assert items == symbol + sign + bits + code.prefix + behind;
    ItemsAhead(symbol, sign, bits, code.prefix, items, code.prefix + behind);
  }

  lemma {:induction false} SignsOf(target: seq<Coef>)
    ensures |Signs(target)| == |target| && forall k :: 0 <= k < |target| ==> (Signs(target)[k] <==> target[k] < 0)
  {
  }

  lemma {:induction false} StretchEmpty(vals: seq<nat>, k: nat)
    requires k <= |vals|
    ensures Stretch(vals, LastNew(vals, |vals|), k, k) && Zeros(vals, k, k) == 0 && Corrections(vals, k, k) == []
  {
  }

  lemma {:induction false} ItemsAhead(symbol: seq<Item>, sign: seq<Item>, bits: seq<Item>, prefix: seq<Item>, items: seq<Item>, onward: seq<Item>)
    requires prefix <= onward && items == symbol + sign + bits + prefix + onward[|prefix|..]
    ensures items == symbol + (sign + (bits + onward))
  {
    assert onward == prefix + onward[|prefix|..];
  }

  /** The zero reached takes its new value, or stays zero. */
  lemma {:induction false} AtTarget(block0: seq<Coef>, block: seq<Coef>, target: seq<Coef>, al: nat, k0: nat, q: nat, t: nat, bit: Bit)
    requires |block0| == |block| == |target| && k0 <= q < |target| && t == Abs(PointAc(target[q], al)) <= 1
    requires AtPrecision(block0, target, al + 1, k0, |block|) && AtPrecision(block, target, al, k0, q)
    requires t == 0 ==> block[q] == block0[q]
    requires t == 1 ==> bit == (if target[q] < 0 then 0 else 1) && block[q] == NewCoef(1 - bit, al)
    ensures AtPrecision(block, target, al, k0, q + 1)
  {
    CoefRefined(target[q], block0[q], al);
    hide ApproxAc, PointAc, NewCoef, CorrectedOnce;
  }

  // ----- whole scans

  /** The groups from the front. */
  function Flat(groups: seq<Group>): seq<Item>
    requires forall i :: 0 <= i < |groups| ==> ValidGroup(groups[i])
  {
    if groups == [] then [] else
      assert ValidGroup(groups[0]);
      GroupItems(groups[0]) + Flat(groups[1..])
  }

  function FlatCodes(groups: seq<Group>): seq<BlockCode> {
    if groups == [] then [] else Codes(groups[0]) + FlatCodes(groups[1..])
  }

  lemma {:induction false} FlatAppend(groups: seq<Group>, group: Group)
    requires ValidGroup(group) && forall i :: 0 <= i < |groups| ==> ValidGroup(groups[i])
    ensures Flat(groups + [group]) == Flat(groups) + GroupItems(group)
    ensures FlatCodes(groups + [group]) == FlatCodes(groups) + Codes(group)
  {
    hide GroupItems, Codes;
    if groups == [] {
      assert ([] + [group])[1..] == [];
      assert GroupItems(group) + [] == [] + GroupItems(group) && Codes(group) + [] == [] + Codes(group);
    } else {
      assert (groups + [group])[1..] == groups[1..] + [group];
      FlatAppend(groups[1..], group);
    }
  }

  lemma {:induction false} FlatIsAll(groups: seq<Group>)
    requires forall i :: 0 <= i < |groups| ==> ValidGroup(groups[i])
    ensures Flat(groups) == AllItems(groups) && FlatCodes(groups) == AllCodes(groups)
  {
    hide GroupItems, ValidGroup, Codes;
    if groups != [] {
      var n := |groups| - 1;
      FlatIsAll(groups[..n]);
      FlatAppend(groups[..n], groups[n]);
      assert groups == groups[..n] + [groups[n]];
    }
  }

  lemma {:induction false} TailBitsFront(codes: seq<BlockCode>)
    requires codes != []
    ensures TailBits(codes) == codes[0].tail + TailBits(codes[1..])
  {
    hide TailBits;
    if |codes| == 1 {
      TailBitsNone();
      TailBitsAppend([], codes[0]);
      assert codes == [] + [codes[0]] && codes[1..] == [];
    } else {
      var n := |codes| - 1;
      TailBitsFront(codes[..n]);
      TailBitsAppend(codes[..n], codes[n]);
      TailBitsAppend(codes[1..n], codes[n]);
      assert codes == codes[..n] + [codes[n]] && codes[..n][1..] == codes[1..n] && codes[1..] == codes[1..n] + [codes[n]];
    }
  }

  /** The stream when `m` blocks of the first group are read. */
  ghost predicate Standing(dec: AcDecoder, groups: seq<Group>, m: nat)
    reads dec
  {
    && (forall i :: 0 <= i < |groups| ==> ValidGroup(groups[i]))
    && if groups == [] then m == 0 && dec.rest == [] && dec.eobrun == 0
       else
         && m < |Codes(groups[0])|
         && if m == 0 then dec.rest == Flat(groups) && dec.eobrun == 0
            else
              && groups[0].Run? && dec.eobrun == |groups[0].codes| - m
              && dec.rest == Raws(TailBits(groups[0].codes[m..])) + Flat(groups[1..])
  }

  /** The codes still to be read. */
  ghost function Left(groups: seq<Group>, m: nat): seq<BlockCode>
    requires groups != [] ==> m <= |Codes(groups[0])|
  {
    if groups == [] then [] else Codes(groups[0])[m..] + FlatCodes(groups[1..])
  }

  /** Behind the next block. */
  ghost function NextStand(groups: seq<Group>, m: nat): (seq<Group>, nat)
    requires groups != []
  {
    if m + 1 < |Codes(groups[0])| then (groups, m + 1) else (groups[1..], 0)
  }

  ghost function RunOf(groups: seq<Group>): nat
    requires groups != []
  {
    if groups[0].Run? then |groups[0].codes| else 0
  }

  ghost function AfterBlock(groups: seq<Group>, m: nat): seq<Item>
    requires groups != [] && m < |Codes(groups[0])| && forall i :: 0 <= i < |groups| ==> ValidGroup(groups[i])
  {
    (if groups[0].Run? then Raws(TailBits(groups[0].codes[m + 1..])) else []) + Flat(groups[1..])
  }

  /** A block without a prefix has only corrections. */
  lemma {:induction false} OnlyCorrections(target: seq<Coef>, al: nat, k: nat)
    requires k <= |target| && Remaining(target, al, k).prefix == []
    ensures NoneNew(Magnitudes(target, al), k, |target|)
    ensures Remaining(target, al, k).tail == Corrections(Magnitudes(target, al), k, |target|)
  {
    hide Corrections, Zeros, Magnitudes, PointAc, EobRuns.RefineFrom, LastNew, Reads, Stretch;
    var vals, negative := Magnitudes(target, al), Signs(target);
    var last := LastNew(vals, |vals|);
    StretchEmpty(vals, k);
    var first := NextSymbol(vals, negative, last, k, k);
    NothingAtOnce(vals, negative, last, k, Remaining(target, al, k), first);
  }

  /** Standing before a block whose code is known. */
  lemma {:induction false} StandsBefore(dec: AcDecoder, groups: seq<Group>, m: nat, target: seq<Coef>, al: nat)
    requires Standing(dec, groups, m) && groups != [] && Codes(groups[0])[m] == Remaining(target, al, 0)
    ensures dec.Before(target, al, RunOf(groups), AfterBlock(groups, m))
    ensures Remaining(target, al, 0).eob <==> groups[0].Run?
    ensures m < |Codes(groups[0])| && forall i :: 0 <= i < |groups| ==> ValidGroup(groups[i])
    ensures groups[0].Run? ==>
              (if dec.eobrun > 0 then dec.eobrun - 1 else RunOf(groups) - 1) == |groups[0].codes| - m - 1
    ensures groups[0].Single? ==> dec.eobrun == 0
  {
    hide Corrections, Remaining, Magnitudes, EobCode, Flat, TailBits;
    assert ValidGroup(groups[0]);
    var after := AfterBlock(groups, m);
    FlatFirst(groups);
    match groups[0]
    case Single(code) =>
      assert [] + Flat(groups[1..]) == Flat(groups[1..]);
    case Run(codes) =>
      assert codes[m..][1..] == codes[m + 1..];
      TailBitsFront(codes[m..]);
      RawsSplit(codes[m].tail, TailBits(codes[m + 1..]), Flat(groups[1..]));
      if m == 0 {
        assert codes[0..] == codes;
        var p, e, t := codes[0].prefix, EobCode(|codes|), Raws(TailBits(codes));
        assert p + e + t + Flat(groups[1..]) == p + (e + (t + Flat(groups[1..])));
      } else {
        OnlyCorrections(target, al, 0);
      }
  }

  lemma {:induction false} FlatFirst(groups: seq<Group>)
    requires groups != [] && forall i :: 0 <= i < |groups| ==> ValidGroup(groups[i])
    ensures ValidGroup(groups[0]) && Flat(groups) == GroupItems(groups[0]) + Flat(groups[1..])
  {
  }

  lemma {:induction false} RawsSplit(a: seq<Bit>, b: seq<Bit>, rest: seq<Item>)
    ensures Raws(a + b) + rest == Raws(a) + (Raws(b) + rest)
  {
    assert Raws(a + b) == Raws(a) + Raws(b);
  }

  /** Behind it, the decoder stands before the next one. */
  lemma {:induction false} StandsNext(dec: AcDecoder, groups: seq<Group>, m: nat)
    requires groups != [] && m < |Codes(groups[0])| && forall i :: 0 <= i < |groups| ==> ValidGroup(groups[i])
    requires dec.rest == AfterBlock(groups, m)
    requires dec.eobrun == if groups[0].Run? then |groups[0].codes| - m - 1 else 0
    ensures Standing(dec, NextStand(groups, m).0, NextStand(groups, m).1)
    ensures Left(groups, m)[1..] == Left(NextStand(groups, m).0, NextStand(groups, m).1)
  {
    hide TailBits, GroupItems;
    TailBitsNone();
    assert [] + Flat(groups[1..]) == Flat(groups[1..]);
    assert ValidGroup(groups[0]) && (groups[1..] != [] ==> ValidGroup(groups[1]));
    var codes := Codes(groups[0]);
    assert m + 1 == |codes| ==> codes[m + 1..] == [];
    NextCodes(groups, m);
  }

  lemma {:induction false} NextCodes(groups: seq<Group>, m: nat)
    requires groups != [] && m < |Codes(groups[0])| && forall i :: 0 <= i < |groups| ==> ValidGroup(groups[i])
    ensures Left(groups, m)[1..] == Left(NextStand(groups, m).0, NextStand(groups, m).1)
  {
    hide ValidGroup, Codes, FlatCodes;
    var codes, rest := Codes(groups[0]), FlatCodes(groups[1..]);
    assert (codes[m..] + rest)[1..] == codes[m + 1..] + rest;
    if m + 1 == |codes| {
      assert codes[m + 1..] + rest == rest;
      AllLeft(groups[1..]);
    }
  }

  lemma {:induction false} AllLeft(groups: seq<Group>)
    ensures Left(groups, 0) == FlatCodes(groups)
  {
    hide Codes;
    if groups != [] {
      assert Codes(groups[0])[0..] == Codes(groups[0]);
    }
  }

  /** The bands of a scan. */
  function BandsOf(targets: seq<seq<Coef>>, al: nat): (bands: seq<Band>)
    requires ValidTargets(targets)
    ensures |bands| == |targets| && ValidBands(bands)
    ensures forall i :: 0 <= i < |bands| ==> bands[i] == Band(Magnitudes(targets[i], al), Signs(targets[i]))
  {
    seq(|targets|, i requires 0 <= i < |targets| => Band(Magnitudes(targets[i], al), Signs(targets[i])))
  }

  predicate ValidTargets(targets: seq<seq<Coef>>) {
    forall i :: 0 <= i < |targets| ==> 0 < |targets[i]| < BLOCK_SIZE
  }

  predicate BlocksAtPrecision(blocks: seq<seq<Coef>>, targets: seq<seq<Coef>>, al: nat) {
    && |blocks| == |targets|
    && forall i :: 0 <= i < |blocks| ==> |blocks[i]| == |targets[i]| && AtPrecision(blocks[i], targets[i], al, 0, |blocks[i]|)
  }

  /** The bits of an encoder's scan are ahead, and the decoder has its table. */
  ghost predicate ScanHeld(decoding: DTable, lengths: seq<nat>, input: seq<Bit>, table: Table, items: seq<Item>) {
    && ValidTable(table) && table.bits == lengths && table.huffval == decoding.huffval && Holds(table, items, input)
  }

  /** Decoding a whole scan; given an encoder's scan, every block is refined. */
  method DecodeRefineScan(prior: seq<seq<Coef>>, al: nat, decoding: DTable, lengths: seq<nat>, input: seq<Bit>,
                          ghost known: bool, ghost table: Table, ghost targets: seq<seq<Coef>>)
    returns (ok: bool, blocks: seq<seq<Coef>>)
    requires Decodes(decoding, lengths, decoding.huffval)
    requires known ==> ValidTargets(targets) && BlocksAtPrecision(prior, targets, al + 1)
    requires known ==> ScanHeld(decoding, lengths, input, table, ScanItems(CodesOf(BandsOf(targets, al))))
    ensures known ==> ok && BlocksAtPrecision(blocks, targets, al)
  {
    hide Standing, Left, AtPrecision, Magnitudes, Signs, Remaining, ScanItems, CodeOf, RunOf, AfterBlock, NextStand, Codes,
         Decodes, ValidTable, Holds;
    ghost var codes := if known then CodesOf(BandsOf(targets, al)) else [];
    var decoder := new AcDecoder(decoding, lengths, input, table, if known then ScanItems(codes) else []);
    ghost var groups, m := [], 0;
    if known {
      groups := ScanStart(decoder, codes);
    }
    ok, blocks := true, [];
    for i := 0 to |prior|
      invariant ok && fresh(decoder) && fresh(decoder.reader) && |blocks| == i && decoder.Ready()
      invariant known ==> decoder.Tracks() && Standing(decoder, groups, m) && LeftFits(groups, m) && Left(groups, m) == codes[i..]
      invariant known ==>
                  forall j :: 0 <= j < i ==> |blocks[j]| == |targets[j]| && AtPrecision(blocks[j], targets[j], al, 0, |blocks[j]|)
    {
      ghost var after, run := [], 0;
      if known {
        Fits(decoder, groups, m);
        CodeAhead(groups, m, codes, i);
        CodeIsRemaining(targets[i], al, codes[i]);
        StandsBefore(decoder, groups, m, targets[i], al);
        after, run := AfterBlock(groups, m), RunOf(groups);
      }
      var block;
      ok, block := decoder.DecodeMcuAcRefine(prior[i], al, known, if known then targets[i] else [], run, after);
      if !ok {
        return;
      }
      if known {
        StandsNext(decoder, groups, m);
        Fits(decoder, NextStand(groups, m).0, NextStand(groups, m).1);
        assert codes[i..][1..] == codes[i + 1..];
        groups, m := NextStand(groups, m).0, NextStand(groups, m).1;
      }
      blocks := blocks + [block];
    }
  }

  ghost predicate LeftFits(groups: seq<Group>, m: nat) {
    groups != [] ==> m <= |Codes(groups[0])|
  }

  lemma {:induction false} ScanStart(dec: AcDecoder, codes: seq<BlockCode>) returns (groups: seq<Group>)
    requires (forall i :: 0 <= i < |codes| ==> ValidCode(codes[i])) && dec.eobrun == 0 && dec.rest == ScanItems(codes)
    ensures Standing(dec, groups, 0) && LeftFits(groups, 0) && Left(groups, 0) == codes[0..]
  {
    hide ScanItems, GroupItems, Added;
    ScanItemsAreGroups(codes);
    groups := Flushed(AddedAll(codes)).groups;
    FlatIsAll(groups);
    if groups != [] {
      assert ValidGroup(groups[0]);
      assert Codes(groups[0])[0..] == Codes(groups[0]);
    }
  }

  lemma {:induction false} Fits(dec: AcDecoder, groups: seq<Group>, m: nat)
    requires Standing(dec, groups, m)
    ensures LeftFits(groups, m) && (groups != [] ==> m < |Codes(groups[0])|)
  {
  }

  lemma {:induction false} CodeAhead(groups: seq<Group>, m: nat, codes: seq<BlockCode>, i: nat)
    requires i < |codes| && LeftFits(groups, m) && Left(groups, m) == codes[i..]
    requires groups != [] ==> m < |Codes(groups[0])|
    ensures groups != [] && m < |Codes(groups[0])| && Codes(groups[0])[m] == codes[i]
  {
    assert codes[i] == codes[i..][0];
  }

  lemma {:induction false} CodeIsRemaining(target: seq<Coef>, al: nat, code: BlockCode)
    requires 0 < |target| < BLOCK_SIZE && code == CodeOf(Band(Magnitudes(target, al), Signs(target)))
    ensures code == Remaining(target, al, 0)
  {
  }
}
