/** The arithmetic entropy decoder of a scan. It runs on any segments; when they are
    codes for known MCUs it recovers them to the precision of the scan. */
module EntropyDecoding {
  import opened Shifts
  import opened ByteCode
  import opened IntervalCoder
  import opened Binarisation
  import opened ScanCoding
  import opened ArithDecoding
  import opened McuDecoding
  import opened EntropyEncoding

  /** The decoder keeps predictions modulo 2^16. */
  ghost predicate Mirrors(last: seq<nat>, context: seq<nat>, st: DcState) {
    && |last| == |st.last| && context == st.context
    && forall c :: 0 <= c < |last| ==> (last[c] - st.last[c]) % 65536 == 0
  }

  /** Storing the scaled prediction truncates it to the right coefficient. */
  lemma {:induction false} StoreDc(x: Coef, last: int, al: nat)
    requires al <= 13 && (last - PointDc(x, al)) % 65536 == 0
    ensures ToCoef(last * Pow2(al)) == ApproxDc(x, al)
  {
    ApproxInRange(x, 0, al);
    hide Pow2, PointDc;
    CongruentProducts(last, PointDc(x, al), Pow2(al));
  }

  lemma {:induction false} CongruentProducts(a: int, b: int, p: int)
    requires (a - b) % 65536 == 0
    ensures (a * p - b * p) % 65536 == 0
  {
    var k := (a - b) / 65536;
    assert a - b == 65536 * k;
    assert a * p - b * p == 65536 * (k * p);
  }

  /** `|= p1` on a two's complement coefficient. */
  function OrBit(c: Coef, al: nat): Coef {
    if c / Pow2(al) % 2 == 1 then c else ToCoef(c + Pow2(al))
  }

  lemma {:induction false} OrBitRefines(x: Coef, c: Coef, al: nat)
    requires al <= 13 && c == ApproxDc(x, al + 1)
    ensures ApproxDc(x, al) == if PointDc(x, al) % 2 == 1 then OrBit(c, al) else c
  {
    hide Pow2, ApproxDc, PointDc;
    ApproxDcRefines(x, al);
    ApproxInRange(x, 0, al);
  }

  // ----- the segments of a scan in the input

  /** How the scan's data end: fill bytes, the closing marker, and what follows it. */
  datatype End = End(fill: nat, marker: Byte, tail: seq<Byte>)

  function FillBehind(codes: seq<seq<Byte>>, d: nat, end: End): nat {
    if d + 1 < |codes| then 0 else end.fill
  }

  function MarkerBehind(codes: seq<seq<Byte>>, d: nat, end: End): Byte {
    if d + 1 < |codes| then 0xD0 + d % 8 else end.marker
  }

  /** The input behind segment `d` and its marker. */
  function Behind(codes: seq<seq<Byte>>, d: nat, end: End): seq<Byte>
    decreases |codes| - d
  {
    if d + 1 < |codes| then
      Stuff(codes[d + 1]) + Marker(FillBehind(codes, d + 1, end), MarkerBehind(codes, d + 1, end))
      + Behind(codes, d + 1, end)
    else end.tail
  }

  /** The input from segment `d` on. */
  function From(codes: seq<seq<Byte>>, d: nat, end: End): seq<Byte>
    requires d < |codes|
  {
    Stuff(codes[d]) + Marker(FillBehind(codes, d, end), MarkerBehind(codes, d, end)) + Behind(codes, d, end)
  }

  lemma {:induction false} JoinedStep(codes: seq<seq<Byte>>, d: nat)
    requires 0 < d <= |codes|
    ensures Joined(codes[..d]) == Joined(codes[..d - 1]) + Stuff(codes[d - 1]) + [0xFF, 0xD0 + (d - 1) % 8]
  {
    hide Stuff;
    assert codes[..d][..d - 1] == codes[..d - 1];
  }

  lemma {:induction false} FromStep(codes: seq<seq<Byte>>, d: nat, end: End)
    requires 0 < d < |codes|
    ensures From(codes, d - 1, end) == Stuff(codes[d - 1]) + [0xFF, 0xD0 + (d - 1) % 8] + From(codes, d, end)
  {
    hide Stuff;
    assert Repeat(255, 0) == [];
  }

  /** What the encoder writes, closed by a marker, has this form. */
  lemma {:induction false} JoinedIsFrom(codes: seq<seq<Byte>>, d: nat, end: End)
    requires d < |codes|
    ensures Joined(codes[..d]) + From(codes, d, end) == From(codes, 0, end)
  {
    hide Stuff, Behind, Marker, From;
    if d > 0 {
      JoinedIsFrom(codes, d - 1, end);
      JoinedStep(codes, d);
      FromStep(codes, d, end);
      var x, s, m, y := Joined(codes[..d - 1]), Stuff(codes[d - 1]), [0xFF, 0xD0 + (d - 1) % 8], From(codes, d, end);
      assert x + s + m + y == x + (s + m + y);
    } else {
      assert [] + From(codes, 0, end) == From(codes, 0, end);
    }
  }

  /** Known data: the segments encode the MCUs of `target`. */
  ghost predicate EncodesAll(scan: Scan, target: seq<Mcu>, codes: seq<seq<Byte>>) {
    && ValidScan(scan) && ValidMcus(scan, target) && |codes| == Intervals(scan, |target|)
    && forall i :: 0 <= i < |codes| ==> Encodes(scan, Chunk(scan, target, |target|, i), codes[i])
  }

  /** The decisions of segment `d`, if the data are known. */
  ghost function FirstDecisions(scan: Scan, target: seq<Mcu>, codes: seq<seq<Byte>>, d: nat): seq<Decision>
    requires ValidScan(scan) && d < |codes|
  {
    ValidInitialState(scan);
    if EncodesAll(scan, target, codes)
    then
      assert Encodes(scan, Chunk(scan, target, |target|, d), codes[d]);
      IntervalFrom(scan, InitialState(scan), Chunk(scan, target, |target|, d))
    else []
  }

  lemma {:induction false} FirstDecisionsFit(scan: Scan, target: seq<Mcu>, codes: seq<seq<Byte>>, d: nat)
    requires ValidScan(scan) && d < |codes|
    ensures Inside(codes[d], Run(Coder(Start, map[]), FirstDecisions(scan, target, codes, d)).interval)
    ensures ValidState(scan, InitialState(scan))
    ensures EncodesAll(scan, target, codes) ==>
              && ValidMcus(scan, Chunk(scan, target, |target|, d))
              && FirstDecisions(scan, target, codes, d) == IntervalFrom(scan, InitialState(scan), Chunk(scan, target, |target|, d))
  {
    ValidInitialState(scan);
    assert EncodesAll(scan, target, codes) ==> Encodes(scan, Chunk(scan, target, |target|, d), codes[d]);
    hide Inside, Run, IntervalFrom, Chunk;
    StartHoldsEveryCode(codes[d]);
    RunEmpty(Fresh);
  }

  class EntropyDecoder {
    const scan: Scan
    const dec: ArithDecoder
    var lastDcVal: seq<nat>
    var dcContext: seq<nat>
    var restartsToGo: nat
    var failed: bool       // the source marks this with ct == -1

    ghost const codes: seq<seq<Byte>>
    ghost const end: End
    ghost const target: seq<Mcu>     // the encoded MCUs, if the data are known
    ghost var done: nat              // MCUs decoded so far
    ghost var d: nat                 // the current segment
    ghost var st: DcState            // the encoder's DC state at this point

    ghost predicate Shape()
      reads this
    {
      && ValidScan(scan) && |lastDcVal| == |dcContext| == |scan.comps|
      && forall c :: 0 <= c < |dcContext| ==> dcContext[c] <= 16
    }

    /** The bit-level decoder reads segment `d`, and the counters agree with it. */
    ghost predicate OnSegment()
      reads this, dec
    {
      && d < |codes| && 0 < end.marker < 255
      && dec.code == codes[d] && dec.rest == Behind(codes, d, end)
      && dec.fill == FillBehind(codes, d, end) && dec.marker == MarkerBehind(codes, d, end)
      && if scan.restartInterval == 0 then d == 0
         else
           var first := d * scan.restartInterval;
           && first <= done <= first + scan.restartInterval
           && restartsToGo == first + scan.restartInterval - done
    }

    ghost function Open(): seq<Mcu>
      reads this
    {
      Chunk(scan, target, |target|, d)
    }

    /** On known data: the decisions to come are those of the rest of the segment, or
        a magnitude overflowed and the segment is not smooth. */
    ghost predicate Ahead()
      reads this, dec
    {
      var k := done - d * scan.restartInterval;
      && ValidScan(scan) && done <= |target| && 0 <= k <= |Open()| && ValidMcus(scan, Open())
      && ValidState(scan, InitialState(scan))
      && if failed then !IntervalSmooth(scan, InitialState(scan), Open())
         else
           && ValidState(scan, st) && Mirrors(lastDcVal, dcContext, st)
           && dec.future == IntervalFrom(scan, st, Open()[k..])
           && (IntervalSmooth(scan, st, Open()[k..]) <==> IntervalSmooth(scan, InitialState(scan), Open()))
    }

    ghost predicate Valid()
      reads this, dec
    {
      && Shape() && dec.Valid() && OnSegment()
      && (EncodesAll(scan, target, codes) ==> Ahead())
    }

    constructor (scan: Scan, input: seq<Byte>, ghost codes: seq<seq<Byte>>, ghost end: End, ghost target: seq<Mcu>)
      requires ValidScan(scan) && codes != [] && 0 < end.marker < 255 && input == From(codes, 0, end)
      ensures Valid() && fresh(dec) && this.scan == scan && done == 0 && d == 0 && !failed
      ensures this.codes == codes && this.end == end && this.target == target
    {
      this.scan, this.codes, this.end, this.target := scan, codes, end, target;
      hide ArithDecoder.Valid, Behind, IntervalFrom, IntervalSmooth, Chunk, EncodesAll, FirstDecisions, Stuff, Marker, Inside, Run;
      ghost var future := FirstDecisions(scan, target, codes, 0);
      FirstDecisionsFit(scan, target, codes, 0);
      dec := new ArithDecoder(input, map[], codes[0], FillBehind(codes, 0, end), MarkerBehind(codes, 0, end),
                              Behind(codes, 0, end), future);
      lastDcVal := seq(|scan.comps|, _ => 0);
      dcContext := seq(|scan.comps|, _ => 0);
      restartsToGo, failed := scan.restartInterval, false;
      done, d, st := 0, 0, InitialState(scan);
      new;
      assert EncodesAll(scan, target, codes) ==> Open()[0..] == Open();
    }

    /** One block by the routine of the scan: the DC part, then the AC part. */
    method DecodeBlock(c: nat, prior: Block, ghost st: DcState, ghost target: Block, ghost after: seq<Decision>)
      returns (ok: bool, block: Block)
      requires Shape() && dec.Valid() && c < |scan.comps| && ValidState(scan, st)
      modifies `lastDcVal, `dcContext, dec
      ensures Shape() && dec.Valid() && SameSegment(dec)
      ensures old(dec.future) == BlockDecisions(scan, st, c, target) + after
              && old(Mirrors(lastDcVal, dcContext, st)) && PriorKnown(scan, target, prior) ==>
                && (ok <==> Smooth(scan, st, c, target))
                && (ok ==> dec.future == after && Mirrors(lastDcVal, dcContext, NextState(scan, st, c, target)))
                && (ok ==> Updated(scan, target, prior, block))
    {
      hide ArithDecoder.Valid, Step, DcPart, AcPart, PointDc, ApproxDc, ApproxAc;
      ghost var known := dec.future == BlockDecisions(scan, st, c, target) + after
                         && Mirrors(lastDcVal, dcContext, st) && PriorKnown(scan, target, prior);
      assert known ==> dec.future == DcPart(scan, st, c, target) + (AcPart(scan, c, target) + after);
      block := prior;
      ok := true;
      if scan.ss == 0 {
        ok, block := DecodeDcPart(c, prior, st, target, AcPart(scan, c, target) + after);
        if !ok {
          return;
        }
      } else {
        SkipDcPart(scan, st, c, target, AcPart(scan, c, target) + after);
      }
      if scan.se != 0 {
        ok, block := DecodeAcPart(c, block, target, after);
      } else {
        SkipAcPart(scan, c, target, after);
      }
    }

    method DecodeDcPart(c: nat, prior: Block, ghost st: DcState, ghost target: Block, ghost after: seq<Decision>)
      returns (ok: bool, block: Block)
      requires Shape() && dec.Valid() && c < |scan.comps| && ValidState(scan, st) && scan.ss == 0
      modifies `lastDcVal, `dcContext, dec
      ensures Shape() && dec.Valid() && SameSegment(dec) && block[1..] == prior[1..]
      ensures old(dec.future) == DcPart(scan, st, c, target) + after
              && old(Mirrors(lastDcVal, dcContext, st)) && (scan.ah > 0 ==> prior[0] == ApproxDc(target[0], scan.ah)) ==>
                && (ok <==> Smooth(scan, st, c, target))
                && (ok ==> dec.future == after && Mirrors(lastDcVal, dcContext, NextState(scan, st, c, target)))
                && (ok ==> block[0] == ApproxDc(target[0], scan.al))
    {
      hide ArithDecoder.Valid, Step, DcDecisions, DcContext, PointDc, ApproxDc, OrBit;
      ghost var known := dec.future == DcPart(scan, st, c, target) + after
              && Mirrors(lastDcVal, dcContext, st) && (scan.ah > 0 ==> prior[0] == ApproxDc(target[0], scan.ah));
      block := prior;
      ok := true;
      if scan.ah == 0 {
        var context, last;
        ok, context, last := DecodeDc(dec, scan.comps[c], dcContext[c], lastDcVal[c], DcDiff(scan, st, c, target), after);
        if ok {
          dcContext := dcContext[c := context];
          lastDcVal := lastDcVal[c := last];
          if known {
            Congruent(old(lastDcVal[c]), st.last[c], PointDc(target[0], scan.al), last);
            StoreDc(target[0], last, scan.al);
          }
          block := block[0 := ToCoef(last * Pow2(scan.al))];
        }
      } else {
        var bit := dec.Decode(Fixed);
        if known {
          OrBitRefines(target[0], prior[0], scan.al);
        }
        if bit != 0 {
          block := block[0 := OrBit(block[0], scan.al)];
        }
      }
    }

    method DecodeAcPart(c: nat, prior: Block, ghost target: Block, ghost after: seq<Decision>)
      returns (ok: bool, block: Block)
      requires Shape() && dec.Valid() && c < |scan.comps| && scan.se != 0
      modifies dec
      ensures dec.Valid() && SameSegment(dec)
      ensures old(dec.future) == AcPart(scan, c, target) + after
              && (forall j :: 1 <= j < 64 && scan.ss <= j <= scan.se ==>
                    prior[j] == if scan.ah == 0 then 0 else ApproxAc(target[j], scan.ah)) ==>
                && ok && dec.future == after && block[0] == prior[0]
                && (forall j :: 1 <= j < 64 ==>
                      block[j] == if scan.ss <= j <= scan.se then ApproxAc(target[j], scan.al) else prior[j])
    {
      hide ArithDecoder.Valid, Step, AcFrom, RefineFrom, LastNonzero, ApproxAc;
      if scan.ah == 0 {
        ok, block := DecodeAcFirst(dec, scan.comps[c], prior, if scan.ss == 0 then 1 else scan.ss, scan.se, scan.al, target, after);
      } else {
        ok, block := DecodeAcRefine(dec, scan.comps[c], prior, scan.ss, scan.se, scan.al, target, after);
      }
    }

    method DecodeBlocks(prior: Mcu, ghost st0: DcState, ghost target: Mcu, ghost after: seq<Decision>)
      returns (ok: bool, mcu: Mcu)
      requires Shape() && dec.Valid() && ValidState(scan, st0) && ValidMcu(scan, prior) && ValidMcu(scan, target)
      modifies `lastDcVal, `dcContext, dec
      ensures Shape() && dec.Valid() && SameSegment(dec) && ValidMcu(scan, mcu)
      ensures old(dec.future) == McuFrom(scan, st0, target, 0) + after && old(Mirrors(lastDcVal, dcContext, st0))
              && (forall b :: 0 <= b < |target| ==> PriorKnown(scan, target[b], prior[b])) ==>
                && (ok <==> McuSmooth(scan, st0, target, 0))
                && (ok ==> dec.future == after && Mirrors(lastDcVal, dcContext, McuState(scan, st0, target, 0)))
                && (ok ==> forall b :: 0 <= b < |target| ==> Updated(scan, target[b], prior[b], mcu[b]))
    {
      hide ArithDecoder.Valid, Step, BlockDecisions, NextState, PriorKnown, Updated, Smooth;
      ghost var known := dec.future == McuFrom(scan, st0, target, 0) + after && Mirrors(lastDcVal, dcContext, st0)
              && forall b :: 0 <= b < |target| ==> PriorKnown(scan, target[b], prior[b]);
      mcu, ok := prior, true;
      ghost var st := st0;
      var b := 0;
      while b < |prior|
        invariant b <= |mcu| == |prior| && ok && mcu[b..] == prior[b..]
        invariant Shape() && dec.Valid() && SameSegment(dec) && ValidState(scan, st)
        invariant known ==> dec.future == McuFrom(scan, st, target, b) + after && Mirrors(lastDcVal, dcContext, st)
        invariant known ==> (McuSmooth(scan, st, target, b) <==> McuSmooth(scan, st0, target, 0))
        invariant known ==> McuState(scan, st, target, b) == McuState(scan, st0, target, 0)
        invariant known ==> forall i :: 0 <= i < b ==> Updated(scan, target[i], prior[i], mcu[i])
      {
        ghost var c := scan.membership[b];
        ghost var next := NextState(scan, st, c, target[b]);
        assert McuFrom(scan, st, target, b) + after
            == BlockDecisions(scan, st, c, target[b]) + (McuFrom(scan, next, target, b + 1) + after);
        var block;
        assert mcu[b] == mcu[b..][0] == prior[b];
        ok, block := DecodeBlock(scan.membership[b], mcu[b], st, target[b], McuFrom(scan, next, target, b + 1) + after);
        if !ok {
          return;
        }
        mcu := mcu[b := block];
        st := next;
        b := b + 1;
      }
    }

    /** After the last MCU the last segment is open, and it was smooth unless it failed. */
    lemma {:induction false} SegmentFinished()
      requires Valid() && EncodesAll(scan, target, codes) && done == |target|
      ensures d + 1 == |codes| && ValidMcus(scan, Open()) && ValidState(scan, InitialState(scan))
      ensures failed <==> !IntervalSmooth(scan, InitialState(scan), Open())
    {
      hide ArithDecoder.Valid, IntervalFrom, Behind, Encodes, Mirrors, Chunk, IntervalSmooth;
      LastSegment(scan, target, d);
      assert !failed ==> Open()[done - d * scan.restartInterval..] == [];
      EmptySmooth(scan, st);
    }

    /** What a call to DecodeMcu expects on known data: one more MCU, and a prior image
        that holds what earlier scans established. */
    ghost predicate Expects(prior: Mcu)
      reads this
    {
      && ValidMcu(scan, prior)
      && (scan.restartInterval > 0 ==> done < |codes| * scan.restartInterval)
      && (EncodesAll(scan, target, codes) ==>
            done < |target| && forall b :: 0 <= b < |prior| ==> PriorKnown(scan, target[done][b], prior[b]))
    }

    /** One MCU, after a restart if the interval is over. A failed segment leaves its
        remaining MCUs untouched. */
    method DecodeMcu(prior: Mcu) returns (mcu: Mcu)
      requires Valid() && Expects(prior)
      modifies this, dec
      ensures Valid() && ValidMcu(scan, mcu) && done == old(done) + 1
      ensures d == old(d) || d == old(d) + 1
      ensures d == old(d) && old(failed) ==> failed
      ensures EncodesAll(scan, target, codes) && d == old(d) + 1 && !old(failed) ==>
                IntervalSmooth(scan, InitialState(scan), Chunk(scan, target, |target|, old(d)))
      ensures EncodesAll(scan, target, codes) && !failed ==>
                forall b :: 0 <= b < |mcu| ==> Updated(scan, target[old(done)][b], prior[b], mcu[b])
    {
      hide ArithDecoder.Valid, EncodesAll, Chunk, IntervalFrom, IntervalSmooth, Behind, Updated, PriorKnown, Mirrors;
      if scan.restartInterval != 0 && restartsToGo == 0 {
        ProcessRestart();
      }
      mcu := DecodeInSegment(prior);
    }

    method DecodeInSegment(prior: Mcu) returns (mcu: Mcu)
      requires Valid() && Expects(prior) && (scan.restartInterval > 0 ==> restartsToGo > 0)
      modifies `lastDcVal, `dcContext, `restartsToGo, `failed, `done, `st, dec
      ensures Valid() && ValidMcu(scan, mcu) && done == old(done) + 1
      ensures old(failed) ==> failed
      ensures EncodesAll(scan, target, codes) && !failed ==>
                forall b :: 0 <= b < |mcu| ==> Updated(scan, target[old(done)][b], prior[b], mcu[b])
    {
      hide ArithDecoder.Valid, EncodesAll, Chunk, IntervalFrom, IntervalSmooth, Behind, Updated, PriorKnown, Mirrors,
           McuFrom, McuState, McuSmooth, RestOf;
      ghost var known := EncodesAll(scan, target, codes);
      ghost var k, st0, mcu0, after := Upcoming(prior);
      if scan.restartInterval != 0 {
        restartsToGo := restartsToGo - 1;
      }
      done := done + 1;
      mcu := prior;
      if !failed {
        var ok;
        ok, mcu := DecodeBlocks(prior, st0, mcu0, after);
        failed := !ok;
        st := McuState(scan, st0, mcu0, 0);
        RestIs(scan, st0, mcu0, if known then Open()[k + 1..] else []);
      }
    }

    /** What the next MCU of a segment is, on known data, and what its decisions are. */
    lemma {:induction false} Upcoming(prior: Mcu) returns (k: nat, st0: DcState, mcu0: Mcu, after: seq<Decision>)
      requires Valid() && Expects(prior) && (scan.restartInterval > 0 ==> restartsToGo > 0)
      ensures ValidState(scan, st0) && ValidMcu(scan, mcu0)
      ensures EncodesAll(scan, target, codes) ==>
                && k == done - d * scan.restartInterval && k < |Open()| && mcu0 == Open()[k] == target[done]
      ensures EncodesAll(scan, target, codes) && !failed ==>
                && after == RestOf(scan, st0, mcu0, Open()[k + 1..])
                && dec.future == McuFrom(scan, st0, mcu0, 0) + after && Mirrors(lastDcVal, dcContext, st0)
                && (forall b :: 0 <= b < |mcu0| ==> PriorKnown(scan, mcu0[b], prior[b]))
                && (McuSmooth(scan, st0, mcu0, 0) && IntervalSmooth(scan, McuState(scan, st0, mcu0, 0), Open()[k + 1..])
                    <==> IntervalSmooth(scan, InitialState(scan), Open()))
    {
      hide ArithDecoder.Valid, EncodesAll, Chunk, IntervalFrom, IntervalSmooth, Behind, PriorKnown, Mirrors,
           McuFrom, McuState, McuSmooth, RestOf;
      ValidInitialState(scan);
      k, st0, mcu0, after := 0, InitialState(scan), prior, [];
      if EncodesAll(scan, target, codes) {
        k := done - d * scan.restartInterval;
        KnownShape(scan, target, codes);
        ChunkAt(scan, target, d, k);
        mcu0 := Open()[k];
        if !failed {
          NextMcu(scan, Open(), k, st);
          st0, after := st, RestOf(scan, st, mcu0, Open()[k + 1..]);
        }
      }
    }

    /** Past the restart marker: the next segment, with everything reset. */
    method ProcessRestart()
      requires Valid() && scan.restartInterval > 0 && restartsToGo == 0
      requires done < |codes| * scan.restartInterval
      requires EncodesAll(scan, target, codes) ==> done < |target|
      modifies `lastDcVal, `dcContext, `restartsToGo, `failed, `d, `st, dec
      ensures Valid() && d == old(d) + 1 && !failed && restartsToGo == scan.restartInterval
      ensures EncodesAll(scan, target, codes) && !old(failed) ==>
                IntervalSmooth(scan, InitialState(scan), Chunk(scan, target, |target|, old(d)))
    {
      hide ArithDecoder.Valid, Chunk, EncodesAll, IntervalFrom, IntervalSmooth, FirstDecisions, Encodes, Stuff, Inside, Run;
      ghost var r := scan.restartInterval;
      MulMonotone(|codes|, d + 1, r);
      OneMore(d, r);
      FirstDecisionsFit(scan, target, codes, d + 1);
      if EncodesAll(scan, target, codes) {
        FullChunk(scan, target, d);
        assert Open()[r..] == [];
        EmptySmooth(scan, st);
      }
      dec.Restart(codes[d + 1], FillBehind(codes, d + 1, end), MarkerBehind(codes, d + 1, end), Behind(codes, d + 1, end),
                  FirstDecisions(scan, target, codes, d + 1));
      d := d + 1;
      lastDcVal := seq(|scan.comps|, _ => 0);
      dcContext := seq(|scan.comps|, _ => 0);
      restartsToGo, failed := scan.restartInterval, false;
      st := InitialState(scan);
      assert Open()[0..] == Open();
    }
  }

  ghost function RestOf(scan: Scan, st: DcState, mcu: Mcu, later: seq<Mcu>): seq<Decision>
    requires ValidScan(scan) && ValidState(scan, st) && ValidMcu(scan, mcu) && ValidMcus(scan, later)
  {
    IntervalFrom(scan, McuState(scan, st, mcu, 0), later)
  }

  lemma {:induction false} RestIs(scan: Scan, st: DcState, mcu: Mcu, later: seq<Mcu>)
    requires ValidScan(scan) && ValidState(scan, st) && ValidMcu(scan, mcu) && ValidMcus(scan, later)
    ensures RestOf(scan, st, mcu, later) == IntervalFrom(scan, McuState(scan, st, mcu, 0), later)
    ensures ValidState(scan, McuState(scan, st, mcu, 0))
  {
  }

  /** Where an MCU stands in its segment. */
  lemma {:induction false} ChunkAt(scan: Scan, target: seq<Mcu>, d: nat, k: nat)
    requires ValidMcus(scan, target)
    requires scan.restartInterval == 0 ==> d == 0
    requires k + d * scan.restartInterval < |target| && (scan.restartInterval > 0 ==> k < scan.restartInterval)
    ensures var open := Chunk(scan, target, |target|, d);
            k < |open| && open[k] == target[k + d * scan.restartInterval] && ValidMcus(scan, open)
  {
  }

  /** The next MCU of a segment, split off its remaining decisions. */
  lemma {:induction false} NextMcu(scan: Scan, open: seq<Mcu>, k: nat, st: DcState)
    requires ValidScan(scan) && ValidMcus(scan, open) && ValidState(scan, st) && k < |open|
    ensures IntervalFrom(scan, st, open[k..]) == McuFrom(scan, st, open[k], 0) + RestOf(scan, st, open[k], open[k + 1..])
    ensures IntervalSmooth(scan, st, open[k..]) <==>
              McuSmooth(scan, st, open[k], 0) && IntervalSmooth(scan, McuState(scan, st, open[k], 0), open[k + 1..])
  {
    hide McuFrom, McuState, McuSmooth;
    assert open[k..][1..] == open[k + 1..];
  }

  lemma {:induction false} FullChunk(scan: Scan, target: seq<Mcu>, d: nat)
    requires scan.restartInterval > 0 && d * scan.restartInterval + scan.restartInterval < |target|
    ensures |Chunk(scan, target, |target|, d)| == scan.restartInterval
  {
  }

  lemma {:induction false} LastSegment(scan: Scan, target: seq<Mcu>, d: nat)
    requires scan.restartInterval == 0 ==> d == 0
    requires d * scan.restartInterval <= |target|
    requires scan.restartInterval > 0 ==> |target| <= d * scan.restartInterval + scan.restartInterval
    requires d < Intervals(scan, |target|)
    ensures d + 1 == Intervals(scan, |target|)
    ensures |Chunk(scan, target, |target|, d)| == |target| - d * scan.restartInterval
  {
    var r, n := scan.restartInterval, |target|;
    if r > 0 && n > 0 {
      QuotientBounds(n - 1, r);
      MulMonotone(d + 1, (n - 1) / r, r);
      OneMore(d, r);
    }
  }

  lemma {:induction false} EmptySmooth(scan: Scan, st: DcState)
    ensures ValidScan(scan) && ValidState(scan, st) ==> IntervalSmooth(scan, st, [])
  {
  }

  lemma {:induction false} KnownShape(scan: Scan, target: seq<Mcu>, codes: seq<seq<Byte>>)
    requires EncodesAll(scan, target, codes)
    ensures ValidMcus(scan, target) && |codes| == Intervals(scan, |target|)
    ensures ValidState(scan, InitialState(scan))
  {
    ValidInitialState(scan);
  }

  lemma {:induction false} Congruent(last0: int, st: int, m: int, last: int)
    requires (last0 - st) % 65536 == 0 && (last0 + (m - st) - last) % 65536 == 0
    ensures (last - m) % 65536 == 0
  {
    var a, b := (last0 - st) / 65536, (last0 + (m - st) - last) / 65536;
    assert last - m == 65536 * (a - b);
  }

  lemma {:induction false} SkipDcPart(scan: Scan, st: DcState, c: nat, target: Block, after: seq<Decision>)
    requires ValidScan(scan) && ValidState(scan, st) && c < |scan.comps| && scan.ss != 0
    ensures DcPart(scan, st, c, target) + after == after
  {
  }

  lemma {:induction false} SkipAcPart(scan: Scan, c: nat, target: Block, after: seq<Decision>)
    requires ValidScan(scan) && c < |scan.comps| && scan.se == 0
    ensures AcPart(scan, c, target) + after == after
  {
  }
}
