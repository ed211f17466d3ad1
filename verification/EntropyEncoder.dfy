/** The arithmetic entropy encoder of a scan: MCU by MCU, with restart intervals. */
module EntropyEncoding {
  import opened Shifts
  import opened ByteCode
  import opened IntervalCoder
  import opened Binarisation
  import opened ScanCoding
  import opened ArithEncoding
  import opened McuEncoding

  const Fresh := Coder(Start, map[])

  /** Finished segments, each closed by its restart marker. */
  function Joined(codes: seq<seq<Byte>>): seq<Byte> {
    if codes == [] then []
    else
      var n := |codes| - 1;
      Joined(codes[..n]) + Stuff(codes[n]) + [0xFF, 0xD0 + n % 8]
  }

  /** `code` is a code string for these MCUs, coded from fresh statistics. */
  ghost predicate Encodes(scan: Scan, mcus: seq<Mcu>, code: seq<Byte>)
  {
    ValidInitialState(scan);
    && ValidScan(scan) && ValidMcus(scan, mcus)
    && Inside(code, Run(Fresh, IntervalFrom(scan, InitialState(scan), mcus)).interval)
  }

  lemma {:induction false} ValidInitialState(scan: Scan)
    ensures ValidState(scan, InitialState(scan))
  {
  }

  class EntropyEncoder {
    const scan: Scan
    const enc: ArithEncoder
    var lastDcVal: seq<int>
    var dcContext: seq<nat>
    var restartsToGo: nat
    var nextRestartNum: nat

    ghost var mcus: seq<Mcu>             // everything encoded so far
    ghost var codes: seq<seq<Byte>>      // the finished segments

    ghost predicate Valid()
      reads this, enc
    {
      && Consistent()
      && (scan.restartInterval > 0 && codes != [] ==> |codes| * scan.restartInterval < |mcus|)
    }

    /** Valid, except that the open segment may still be empty after a restart. */
    ghost predicate Consistent()
      reads this, enc
    {
      && enc.Valid() && ValidMcus(scan, mcus)
      && enc.start == Fresh && enc.head == Joined(codes)
      && Counting() && Tracking()
      && forall i :: 0 <= i < |codes| ==> Encodes(scan, Chunk(scan, mcus, |mcus|, i), codes[i])
    }

    /** The restart counters follow from the number of MCUs and finished segments. */
    ghost predicate Counting()
      reads this
    {
      && nextRestartNum == |codes| % 8
      && if scan.restartInterval == 0 then codes == []
         else
           var first := |codes| * scan.restartInterval;
           && first <= |mcus| <= first + scan.restartInterval
           && restartsToGo == first + scan.restartInterval - |mcus|
    }

    /** The MCUs of the open segment, their decisions and the DC state they leave. */
    ghost predicate Tracking()
      reads this, enc
    {
      ValidInitialState(scan);
      var open := Chunk(scan, mcus, |mcus|, |codes|);
      && ValidScan(scan) && ValidMcus(scan, open)
      && enc.log == IntervalFrom(scan, InitialState(scan), open)
      && DcState(lastDcVal, dcContext) == IntervalState(scan, InitialState(scan), open)
    }

    ghost function State(): DcState
      reads this
    {
      DcState(lastDcVal, dcContext)
    }

    constructor (scan: Scan)
      requires ValidScan(scan)
      ensures Valid() && fresh(enc) && this.scan == scan && mcus == []
    {
      this.scan := scan;
      enc := new ArithEncoder(map[]);
      lastDcVal := seq(|scan.comps|, _ => 0);
      dcContext := seq(|scan.comps|, _ => 0);
      restartsToGo, nextRestartNum := scan.restartInterval, 0;
      mcus, codes := [], [];
      new;
      hide ArithEncoder.Valid;
      assert Chunk(scan, mcus, 0, 0) == [];
      ValidInitialState(scan);
    }

    /** The five MCU routines of the source, block by block: sequential (DC and AC),
        DC first, AC first, DC refinement, AC refinement. */
    method EncodeBlock(c: nat, block: Block)
      requires ValidScan(scan) && enc.Valid() && ValidState(scan, State()) && c < |scan.comps|
      modifies `lastDcVal, `dcContext, enc
      ensures enc.Valid() && enc.head == old(enc.head) && enc.start == old(enc.start)
      ensures ValidState(scan, State())
      ensures enc.log == old(enc.log) + BlockDecisions(scan, old(State()), c, block)
      ensures State() == NextState(scan, old(State()), c, block)
    {
      hide ArithEncoder.Valid, Step, DcDecisions, DcContext, AcFrom, RefineFrom, LastNonzero, PointDc;
      var comp := scan.comps[c];
      ghost var log, st := enc.log, State();
      PointDcInRange(block[0], scan.al);
      if scan.ss == 0 {
        if scan.ah == 0 {
          var m := PointDc(block[0], scan.al);
          var diff := m - lastDcVal[c];
          var context := EncodeDc(enc, comp, dcContext[c], diff, [],
                                  log + (DcDecisions(comp, dcContext[c], diff) + []));
          NothingAfter(enc.log, log, DcDecisions(comp, dcContext[c], diff));
          lastDcVal := lastDcVal[c := m];
          dcContext := dcContext[c := context];
        } else {
          enc.Encode(Fixed, PointDc(block[0], scan.al) % 2);
        }
      }
      assert enc.log == log + DcPart(scan, st, c, block);
      ghost var log1 := enc.log;
      ghost var target := log1 + (AcPart(scan, c, block) + []);
      if scan.se != 0 {
        if scan.ah == 0 {
          EncodeAcFirst(enc, comp, block, if scan.ss == 0 then 1 else scan.ss, scan.se, scan.al, [], target);
        } else {
          EncodeAcRefine(enc, comp, block, scan.ss, scan.se, scan.ah, scan.al, [], target);
        }
        NothingAfter(enc.log, log1, AcPart(scan, c, block));
      }
      assert enc.log == log + (DcPart(scan, st, c, block) + AcPart(scan, c, block));
    }

    method EncodeBlocks(mcu: Mcu)
      requires ValidScan(scan) && enc.Valid() && ValidState(scan, State()) && ValidMcu(scan, mcu)
      modifies `lastDcVal, `dcContext, enc
      ensures enc.Valid() && enc.head == old(enc.head) && enc.start == old(enc.start)
      ensures enc.log == old(enc.log) + McuFrom(scan, old(State()), mcu, 0)
      ensures State() == McuState(scan, old(State()), mcu, 0)
    {
      hide ArithEncoder.Valid, Step, BlockDecisions, NextState;
      ghost var st0 := State();
      var b := 0;
      while b < |mcu|
        invariant b <= |mcu| && ValidState(scan, State())
        invariant enc.Valid() && enc.head == old(enc.head) && enc.start == old(enc.start)
        invariant enc.log + McuFrom(scan, State(), mcu, b) == old(enc.log) + McuFrom(scan, st0, mcu, 0)
        invariant McuState(scan, State(), mcu, b) == McuState(scan, st0, mcu, 0)
      {
        ghost var log, st := enc.log, State();
        EncodeBlock(scan.membership[b], mcu[b]);
        assert enc.log + McuFrom(scan, State(), mcu, b + 1)
            == log + (BlockDecisions(scan, st, scan.membership[b], mcu[b]) + McuFrom(scan, State(), mcu, b + 1));
        b := b + 1;
      }
    }

    /** One MCU, preceded by a restart marker when the interval is full. */
    method EncodeMcu(mcu: Mcu)
      requires Valid() && ValidMcu(scan, mcu)
      modifies this, enc
      ensures Valid() && mcus == old(mcus) + [mcu]
    {
      hide ArithEncoder.Valid, IntervalFrom, IntervalState, Encodes, Joined, Chunk, InitialState;
      if scan.restartInterval != 0 && restartsToGo == 0 {
        EmitRestart();
        restartsToGo := scan.restartInterval;
        nextRestartNum := (nextRestartNum + 1) % 8;
      }
      EncodeInSegment(mcu);
    }

    method EncodeInSegment(mcu: Mcu)
      requires Consistent() && ValidMcu(scan, mcu) && (scan.restartInterval > 0 ==> restartsToGo > 0)
      modifies this, enc
      ensures Valid() && mcus == old(mcus) + [mcu]
    {
      hide ArithEncoder.Valid, McuFrom, McuState, IntervalFrom, IntervalState, Encodes, Joined, Chunk;
      if scan.restartInterval != 0 {
        restartsToGo := restartsToGo - 1;
      }
      ghost var open := Chunk(scan, mcus, |mcus|, |codes|);
      IntervalAppend(scan, InitialState(scan), open, mcu);
      EncodeBlocks(mcu);
      ChunksAfterMcu(scan, mcus, mcu, |codes|);
      mcus := mcus + [mcu];
      OneMore(|codes|, scan.restartInterval);
    }

    /** Close the segment; predictions and statistics start over. */
    method EmitRestart()
      requires Valid() && scan.restartInterval > 0 && restartsToGo == 0
      modifies `lastDcVal, `dcContext, `codes, enc
      ensures enc.Valid() && enc.start == Fresh && enc.head == Joined(codes) && Tracking()
      ensures |codes| == old(|codes|) + 1 && |mcus| == |codes| * scan.restartInterval
      ensures forall i :: 0 <= i < |codes| ==> Encodes(scan, Chunk(scan, mcus, |mcus|, i), codes[i])
    {
      hide ArithEncoder.Valid, Inside, Run, Chunk, IntervalFrom, IntervalState, Joined, Stuff, InitialState;
      ghost var code := enc.Restart(nextRestartNum);
      assert Encodes(scan, Chunk(scan, mcus, |mcus|, |codes|), code);
      JoinedAppend(codes, code);
      codes := codes + [code];
      lastDcVal := seq(|scan.comps|, _ => 0);
      dcContext := seq(|scan.comps|, _ => 0);
      OneMore(|codes| - 1, scan.restartInterval);
      EmptyChunk(scan, mcus, |codes|);
      EmptyInterval(scan, State());
    }

    /** End of the scan: the segments of all restart intervals. */
    method FinishPass() returns (ghost all: seq<seq<Byte>>)
      requires Valid()
      modifies this, enc
      ensures |all| == Intervals(scan, |mcus|) && mcus == old(mcus)
      ensures enc.output == Joined(all[..|all| - 1]) + Stuff(all[|all| - 1])
      ensures forall i :: 0 <= i < |all| ==> Encodes(scan, Chunk(scan, mcus, |mcus|, i), all[i])
    {
      hide Inside, Run, IntervalFrom, IntervalState, Chunk, Joined;
      enc.FinishPass();
      all := codes + [enc.raw];
      assert all[..|all| - 1] == codes;
      IntervalsCounted(scan, |mcus|, |codes|);
    }
  }

  lemma {:induction false} JoinedLast(all: seq<seq<Byte>>)
    requires all != []
    ensures var n := |all| - 1;
            Joined(all) == Joined(all[..n]) + Stuff(all[n]) + [0xFF, 0xD0 + n % 8]
  {
    hide Stuff;
  }

  lemma {:induction false} JoinedAppend(codes: seq<seq<Byte>>, code: seq<Byte>)
    ensures Joined(codes + [code]) == Joined(codes) + Stuff(code) + [0xFF, 0xD0 + |codes| % 8]
  {
    hide *;
    var all := codes + [code];
    JoinedLast(all);
    assert all[..|codes|] == codes;
  }

  lemma {:induction false} EmptyChunk(scan: Scan, mcus: seq<Mcu>, d: nat)
    requires scan.restartInterval > 0 && |mcus| <= d * scan.restartInterval
    ensures Chunk(scan, mcus, |mcus|, d) == []
  {
  }

  lemma {:induction false} EmptyInterval(scan: Scan, st: DcState)
    requires ValidScan(scan) && st == DcState(seq(|scan.comps|, _ => 0), seq(|scan.comps|, _ => 0))
    ensures st == InitialState(scan) && ValidState(scan, st)
    ensures IntervalFrom(scan, st, []) == [] && IntervalState(scan, st, []) == st
  {
    ValidInitialState(scan);
  }

  lemma {:induction false} NothingAfter(now: seq<Decision>, before: seq<Decision>, ds: seq<Decision>)
    requires now + [] == before + (ds + [])
    ensures now == before + ds
  {
    assert now + [] == now && ds + [] == ds;
  }

  lemma {:induction false} OneMore(d: nat, r: nat)
    ensures (d + 1) * r == d * r + r
  {
  }

  lemma {:induction false} ChunksAfterMcu(scan: Scan, mcus: seq<Mcu>, mcu: Mcu, d: nat)
    requires scan.restartInterval == 0 ==> d == 0
    requires d * scan.restartInterval <= |mcus| && (scan.restartInterval > 0 ==> |mcus| < d * scan.restartInterval + scan.restartInterval)
    ensures Chunk(scan, mcus + [mcu], |mcus| + 1, d) == Chunk(scan, mcus, |mcus|, d) + [mcu]
    ensures forall i :: 0 <= i < d ==> Chunk(scan, mcus + [mcu], |mcus| + 1, i) == Chunk(scan, mcus, |mcus|, i)
  {
    var r := scan.restartInterval;
    forall i | 0 <= i < d
      ensures Chunk(scan, mcus + [mcu], |mcus| + 1, i) == Chunk(scan, mcus, |mcus|, i)
    {
      MulMonotone(i + 1, d, r);
      assert (i + 1) * r == i * r + r;
    }
  }

  lemma {:induction false} IntervalsCounted(scan: Scan, n: nat, d: nat)
    requires if scan.restartInterval == 0 then d == 0
             else d * scan.restartInterval <= n <= d * scan.restartInterval + scan.restartInterval
                  && (d > 0 ==> d * scan.restartInterval < n)
    ensures Intervals(scan, n) == d + 1
  {
    if scan.restartInterval > 0 && n > 0 {
      QuotientIs(n - 1, scan.restartInterval, d);
    }
  }
}
