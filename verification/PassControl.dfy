/** The sequence of passes over an image (jcmaster.c, jpeg_finish_compress of
    jcapimin.c), and what it writes and starts in which order. */
module PassControl {
  import opened ScanScript

  /** What a compression object is set up with. No scans means no script. */
  datatype Options = Options(
    numComponents: nat, script: seq<ScanInfo>, arithCode: bool, optimizeCoding: bool, transcodeOnly: bool,
    imageHeight: nat, totalImcuRows: nat)

  /** What happens, in order. A row is a scanline in the main pass and a row of MCUs of the
      coefficient buffer in any other. */
  datatype Event =
    | StartPass(scan: ScanInfo, gather: bool)
    | FrameHeader
    | ScanHeader(scan: ScanInfo)
    | Row
    | FinishPass(scan: ScanInfo, gather: bool)
    | Trailer

  datatype PassType = MainPass | HuffOptPass | OutputPass
  datatype BufferMode = PassThru | SaveAndPass | CrankDest

  datatype Outcome = Done | BadScript(verdict: Verdict) | ComponentCount | NotCompiled | BadBufferMode | TooLittleData

  // ----- what is to happen

  function OneScan(numComponents: nat): ScanInfo {
    ScanInfo(numComponents, seq(numComponents, i => i), 0, 63, 0, 0)
  }

  datatype Plan = Plan(scans: seq<ScanInfo>, optimize: bool, transcode: bool, lines: nat, rows: nat)

  predicate DcRefinement(scan: ScanInfo) {
    scan.ss == 0 && scan.ah != 0
  }

  predicate ValidPlan(plan: Plan) {
    plan.scans != [] && !DcRefinement(plan.scans[0])
  }

  function Rows(n: nat): (rows: seq<Event>)
    ensures |rows| == n
  {
    seq(n, _ => Row)
  }

  /** The rows of the first pass are scanlines of the application. */
  function RowsOf(plan: Plan, i: nat, gather: bool): nat {
    if i == 0 && !plan.transcode && gather == plan.optimize then plan.lines else plan.rows
  }

  /** DC refinement needs no Huffman table. */
  predicate Gathers(plan: Plan, i: nat)
    requires i < |plan.scans|
  {
    plan.optimize && !DcRefinement(plan.scans[i])
  }

  predicate Refused(outcome: Outcome) {
    outcome == ComponentCount || outcome == NotCompiled
  }

  function Opening(plan: Plan, i: nat, gather: bool): seq<Event>
    requires i < |plan.scans|
  {
    [StartPass(plan.scans[i], gather)]
    + if gather then [] else (if i == 0 then [FrameHeader] else []) + [ScanHeader(plan.scans[i])]
  }

  function PassEvents(plan: Plan, i: nat, gather: bool): seq<Event>
    requires i < |plan.scans|
  {
    Opening(plan, i, gather) + Rows(RowsOf(plan, i, gather)) + [FinishPass(plan.scans[i], gather)]
  }

  function Statistics(plan: Plan, i: nat): seq<Event>
    requires i < |plan.scans|
  {
    if Gathers(plan, i) then PassEvents(plan, i, true) else []
  }

  /** The first `n` scans: a statistics pass where it is of use, then the output pass. */
  function ScanEvents(plan: Plan, n: nat): seq<Event>
    requires n <= |plan.scans|
  {
    if n == 0 then []
    else ScanEvents(plan, n - 1) + Statistics(plan, n - 1) + PassEvents(plan, n - 1, false)
  }

  // ----- the pass state machine

  class Compressor {
    const options: Options
    const optimizeCoding: bool
    const numScans: nat
    const totalPasses: nat
    const wholeImage: bool           // there is a full-image coefficient buffer
    var passType: PassType
    var passNumber: nat
    var scanNumber: nat
    var isLastPass: bool
    var callPassStartup: bool
    var cur: ScanInfo                // the selected scan parameters
    var nextScanline: nat
    var events: seq<Event>

    ghost function Planned(): Plan {
      Plan(
        if options.script == [] then [OneScan(options.numComponents)] else options.script,
        optimizeCoding, options.transcodeOnly, options.imageHeight, options.totalImcuRows)
    }

    ghost predicate Fixed() {
      && ValidPlan(Planned()) && Planned().lines > 0 && numScans == |Planned().scans|
      && totalPasses == (if optimizeCoding then 2 * numScans else numScans)
      && wholeImage == (numScans > 1 || optimizeCoding)
    }

    /** Neither condition depends on the pass. */
    predicate Possible() {
      && (options.arithCode ==> !optimizeCoding)
      && (options.script == [] ==> options.numComponents <= MAX_COMPS_IN_SCAN)
    }

    ghost predicate InScan()
      reads this
    {
      scanNumber < numScans && scanNumber < |Planned().scans|
    }

    function PassesBefore(i: nat): nat {
      if optimizeCoding then 2 * i else i
    }

    /** Before a pass, or after the last. */
    ghost predicate Between()
      reads this
    {
      && Fixed() && scanNumber <= numScans
      && (isLastPass <==> passNumber == totalPasses)
      && (passType.MainPass? ==>
            !options.transcodeOnly && scanNumber == 0 && passNumber == 0 && events == [])
      && (passType.HuffOptPass? ==>
            && optimizeCoding && (scanNumber == 0 ==> options.transcodeOnly)
            && passNumber == 2 * scanNumber && events == ScanEvents(Planned(), scanNumber))
      && (passType.OutputPass? && !optimizeCoding ==>
            && (scanNumber == 0 ==> options.transcodeOnly)
            && passNumber == scanNumber && events == ScanEvents(Planned(), scanNumber))
      && (passType.OutputPass? && optimizeCoding ==>
            && Possible() && InScan() && passNumber == 2 * scanNumber + 1 && cur == Planned().scans[scanNumber]
            && events == ScanEvents(Planned(), scanNumber) + Statistics(Planned(), scanNumber))
    }

    lemma {:induction false} SomeScan()
      ensures Planned().scans != []
    {
    }

    function Gathering(): bool
      reads this
    {
      passType.HuffOptPass? || (passType.MainPass? && optimizeCoding)
    }

    /** In a pass, after `rows` rows; the headers of a single-pass scan may be pending. */
    ghost predicate During(rows: nat)
      reads this
    {
      && Fixed() && InScan() && Possible() && cur == Planned().scans[scanNumber]
      && (isLastPass <==> passNumber == totalPasses - 1)
      && passNumber == PassesBefore(scanNumber) + (if optimizeCoding && !Gathering() then 1 else 0)
      && (passType.MainPass? <==> scanNumber == 0 && !options.transcodeOnly && Gathering() == optimizeCoding)
      && (Gathering() ==> Gathers(Planned(), scanNumber))
      && (callPassStartup ==> passType.MainPass? && !optimizeCoding && rows == 0)
      && events == ScanEvents(Planned(), scanNumber)
                   + (if Gathering() then [] else Statistics(Planned(), scanNumber))
                   + (if callPassStartup then [StartPass(cur, false)]
                      else Opening(Planned(), scanNumber, Gathering()) + Rows(rows))
    }

    /** As jinit_c_master_control leaves it, after the script has been validated. */
    constructor (options: Options, progressive: bool)
      requires options.script == [] ==> !progressive
      requires options.script != [] ==> !DcRefinement(options.script[0])
      requires options.imageHeight > 0
      ensures Between() && !isLastPass && passNumber == 0 && nextScanline == 0
      ensures this.options == options && (passType.MainPass? <==> !options.transcodeOnly)
      ensures optimizeCoding == (options.optimizeCoding || (progressive && !options.arithCode))
    {
      var optimize := options.optimizeCoding || (progressive && !options.arithCode);
      var scans := if options.script == [] then 1 else |options.script|;
      this.options, optimizeCoding, numScans := options, optimize, scans;
      passType := if !options.transcodeOnly then MainPass else if optimize then HuffOptPass else OutputPass;
      passNumber, scanNumber, isLastPass, callPassStartup := 0, 0, false, false;
      totalPasses := if optimize then 2 * scans else scans;
      wholeImage := scans > 1 || optimize;
      cur, nextScanline, events := OneScan(0), 0, [];
    }

    method SelectScanParameters() returns (ok: bool)
      requires Fixed() && InScan()
      modifies `cur
      ensures ok <==> (options.script == [] ==> options.numComponents <= MAX_COMPS_IN_SCAN)
      ensures ok ==> cur == Planned().scans[scanNumber]
    {
      if options.script != [] {
        cur := options.script[scanNumber];
      } else {
        if options.numComponents > MAX_COMPS_IN_SCAN {
          return false;
        }
        cur := OneScan(options.numComponents);
      }
      ok := true;
    }

    /** The arithmetic coder has no statistics pass. */
    method StartEntropy(gather: bool) returns (ok: bool)
      modifies `events
      ensures ok <==> !(gather && options.arithCode)
      ensures events == if ok then old(events) + [StartPass(cur, gather)] else old(events)
    {
      if gather && options.arithCode {
        return false;
      }
      events := events + [StartPass(cur, gather)];
      ok := true;
    }

    /** The coefficient controller has or has not a buffer for the whole image; a
        transcoding one has nothing else. */
    predicate BufferModeOk(mode: BufferMode) {
      if options.transcodeOnly then mode == CrankDest else wholeImage == (mode != PassThru)
    }

    /** The initial pass collects the data, and is output of the first scan unless that is
        to be optimized. */
    method PrepareMainPass() returns (outcome: Outcome)
      requires Between() && !isLastPass && passType.MainPass?
      modifies `cur, `events, `callPassStartup
      ensures Refused(outcome) <==> !Possible()
      ensures outcome == Done || Refused(outcome)
      ensures outcome == Done ==> Started(MainPass, optimizeCoding)
    {
      hide ScanEvents, Statistics, Opening;
      NextScan();
      var ok := SelectScanParameters();
      if !ok {
        return ComponentCount;
      }
      ok := StartEntropy(optimizeCoding);
      if !ok {
        return NotCompiled;
      }
      if !BufferModeOk(if totalPasses > 1 then SaveAndPass else PassThru) {
        return BadBufferMode;
      }
      callPassStartup := !optimizeCoding;
      FirstOpened(Planned(), scanNumber);
      return Done;
    }

    method PrepareStatistics() returns (outcome: Outcome)
      requires Between() && !isLastPass && passType.HuffOptPass? && InScan()
      requires cur == Planned().scans[scanNumber] && (cur.ss != 0 || cur.ah == 0 || options.arithCode)
      requires options.script == [] ==> options.numComponents <= MAX_COMPS_IN_SCAN
      modifies `events, `callPassStartup
      ensures Refused(outcome) <==> !Possible()
      ensures outcome == Done || Refused(outcome)
      ensures outcome == Done ==> Started(HuffOptPass, true)
    {
      hide ScanEvents, Statistics, Opening;
      NextScan();
      var ok := StartEntropy(true);
      if !ok {
        return NotCompiled;
      }
      if !BufferModeOk(CrankDest) {
        return BadBufferMode;
      }
      callPassStartup := false;
      Opened(Planned(), scanNumber, true);
      return Done;
    }

    method PrepareOutput() returns (outcome: Outcome)
      requires OutputDue() && !isLastPass
      modifies `cur, `events, `callPassStartup
      ensures Refused(outcome) <==> !Possible()
      ensures outcome == Done || Refused(outcome)
      ensures outcome == Done ==> Started(OutputPass, false)
    {
      hide ScanEvents, Statistics, Opening;
      var ok;
      if !optimizeCoding {
        ok := SelectScanParameters();
        if !ok {
          return ComponentCount;
        }
      }
      ok := StartEntropy(false);
      if !BufferModeOk(CrankDest) {
        return BadBufferMode;
      }
      if scanNumber == 0 {
        events := events + [FrameHeader];
      }
      events := events + [ScanHeader(cur)];
      callPassStartup := false;
      Opened(Planned(), scanNumber, false);
      return Done;
    }

    /** The statistics of this scan, if any, have been gathered. */
    ghost predicate OutputDue()
      reads this
    {
      && Fixed() && InScan() && passType.OutputPass? && (wholeImage || options.transcodeOnly)
      && passNumber == PassesBefore(scanNumber) + (if optimizeCoding then 1 else 0)
      && (optimizeCoding ==> Possible() && cur == Planned().scans[scanNumber])
      && (!optimizeCoding && scanNumber == 0 ==> options.transcodeOnly)
      && events == ScanEvents(Planned(), scanNumber) + Statistics(Planned(), scanNumber)
    }

    ghost predicate Started(pass: PassType, gather: bool)
      reads this
    {
      && Fixed() && InScan() && Possible() && cur == Planned().scans[scanNumber]
      && (gather ==> Gathers(Planned(), scanNumber))
      && callPassStartup == (pass.MainPass? && !gather)
      && events == ScanEvents(Planned(), scanNumber)
                   + (if gather then [] else Statistics(Planned(), scanNumber))
                   + (if callPassStartup then [StartPass(cur, false)] else Opening(Planned(), scanNumber, gather))
    }

    /** Starts the next pass. The modes asked of the coefficient controller always fit, and
        so do the passes counted: a refinement scan without statistics counts twice. */
    method PrepareForPass() returns (outcome: Outcome)
      requires Between() && !isLastPass
      modifies this
      ensures Refused(outcome) <==> !Possible()
      ensures outcome == Done || Refused(outcome)
      ensures outcome == Done ==> During(0) && (passType.MainPass? <==> old(passType.MainPass?))
      ensures nextScanline == old(nextScanline) && PassesLeft() <= old(PassesLeft())
      ensures outcome == Done ==> PassesLeft() > 0 && (!passType.MainPass? ==> !callPassStartup)
    {
      hide ScanEvents, Statistics, Opening, Possible;
      NextScan();
      if passType.MainPass? {
        outcome := PrepareMainPass();
      } else {
        if passType.HuffOptPass? {
          var ok := SelectScanParameters();
          if !ok {
            NotPossible();
            return ComponentCount;
          }
          if cur.ss != 0 || cur.ah == 0 || options.arithCode {
            outcome := PrepareStatistics();
          } else {
            passType := OutputPass;
            passNumber := passNumber + 1;
            WithoutStatistics(Planned(), scanNumber);
            IsPossible();
            outcome := PrepareOutput();
          }
        } else {
          NoStatistics(Planned(), scanNumber);
          outcome := PrepareOutput();
        }
      }
      hide Between, OutputDue;
      isLastPass := passNumber + 1 == totalPasses;
      NoRowsYet(events);
    }

    lemma {:induction false} NotPossible()
      requires options.script == [] && options.numComponents > MAX_COMPS_IN_SCAN
      ensures !Possible()
    {
    }

    lemma {:induction false} IsPossible()
      requires !options.arithCode && (options.script == [] ==> options.numComponents <= MAX_COMPS_IN_SCAN)
      ensures Possible()
    {
    }

    ghost function PassesLeft(): int
      reads this
    {
      totalPasses - passNumber
    }

    /** There is a scan left unless all passes are done. */
    lemma {:induction false} NextScan()
      requires Between() && !isLastPass
      ensures InScan() && (options.script != [] ==> scanNumber < |options.script|)
      ensures wholeImage <==> totalPasses > 1
      ensures !passType.MainPass? && !options.transcodeOnly ==> wholeImage
    {
    }

    /** Writes the headers of a single-pass scan, just before its first data. */
    method PassStartup()
      requires callPassStartup && During(0)
      modifies `callPassStartup, `events
      ensures During(0) && !callPassStartup
    {
      callPassStartup := false;
      events := events + [FrameHeader];
      events := events + [ScanHeader(cur)];
    }

    /** One call of jpeg_write_scanlines, of which the main controller consumes at most
        `consumed` lines: the destination may suspend. */
    method WriteScanlines(numLines: nat, consumed: nat)
      requires During(nextScanline) && passType.MainPass? && nextScanline <= options.imageHeight
      modifies `callPassStartup, `events, `nextScanline
      ensures During(nextScanline) && !callPassStartup && nextScanline <= options.imageHeight
      ensures nextScanline == old(nextScanline) + Least(consumed, Least(numLines, options.imageHeight - old(nextScanline)))
    {
      if callPassStartup {
        PassStartup();
      }
      var n := Least(consumed, Least(numLines, options.imageHeight - nextScanline));
      MoreRows(nextScanline, n);
      events := events + seq(n, _ => Row);
      nextScanline := nextScanline + n;
    }

    method FinishPassMaster()
      requires During(RowsOf(Planned(), scanNumber, Gathering())) && !callPassStartup
      modifies this
      ensures Between() && passNumber == old(passNumber) + 1 && isLastPass == old(isLastPass)
    {
      hide ScanEvents, Statistics, Opening, RowsOf, PassEvents, Possible;
      LogAfter(Planned(), scanNumber, Gathering());
      NoStatistics(Planned(), scanNumber);
      events := events + [FinishPass(cur, Gathering())];
      match passType {
        case MainPass =>
          passType := OutputPass;
          if !optimizeCoding {
            scanNumber := scanNumber + 1;
          }
        case HuffOptPass =>
          passType := OutputPass;
        case OutputPass =>
          if optimizeCoding {
            passType := HuffOptPass;
          }
          scanNumber := scanNumber + 1;
      }
      passNumber := passNumber + 1;
    }

    /** All rows of the coefficient buffer. */
    method CompressOutput()
      requires During(0) && !callPassStartup && !passType.MainPass?
      modifies `events
      ensures During(RowsOf(Planned(), scanNumber, Gathering())) && !callPassStartup
    {
      hide ScanEvents, Statistics, Opening, Possible, Gathers;
      for row := 0 to options.totalImcuRows
        invariant During(row)
      {
        MoreRows(row, 1);
        events := events + [Row];
      }
    }

    /** Ends the first pass and does all others; every scan has then been written. */
    method FinishCompress() returns (outcome: Outcome)
      requires if options.transcodeOnly then Between() && !isLastPass && passNumber == 0
               else During(nextScanline) && passType.MainPass? && nextScanline <= options.imageHeight
      modifies this
      ensures outcome == TooLittleData <==> !options.transcodeOnly && old(nextScanline) < options.imageHeight
      ensures outcome == Done <==> outcome != TooLittleData && Possible()
      ensures outcome == Done || outcome == TooLittleData || Refused(outcome)
      ensures outcome == Done ==> events == ScanEvents(Planned(), |Planned().scans|) + [Trailer]
      ensures outcome == Done ==> passNumber == totalPasses
      ensures outcome == Done ==>
                WholePasses(events, if options.transcodeOnly then options.totalImcuRows else options.imageHeight, options.totalImcuRows)
    {
      hide ScanEvents, Statistics, Opening, Possible, WholePasses;
      if !options.transcodeOnly {
        if nextScanline < options.imageHeight {
          return TooLittleData;
        }
        FinishPassMaster();
      }
      while !isLastPass
        invariant Between() && !passType.MainPass?
        invariant passNumber > 0 ==> Possible()
        decreases PassesLeft()
      {
        outcome := PrepareForPass();
        if outcome != Done {
          return;
        }
        CompressOutput();
        FinishPassMaster();
      }
      AllWhole();
      events := events + [Trailer];
      return Done;
    }

    lemma {:induction false} AllWhole()
      requires Fixed() && events == ScanEvents(Planned(), |Planned().scans|)
      ensures WholePasses(events + [Trailer], if options.transcodeOnly then options.totalImcuRows else options.imageHeight, options.totalImcuRows)
    {
      hide WholePasses, ScanEvents;
      var plan := Planned();
      PassesAreWhole(plan, |plan.scans|);
      TrailerIsNoPass(events, if plan.transcode then plan.rows else plan.lines, plan.rows);
    }
  }

  // ----- how the log grows

  lemma {:induction false} FirstOpened(plan: Plan, i: nat)
    requires ValidPlan(plan) && i == 0
    ensures ScanEvents(plan, i) == [] && Opening(plan, i, true) == [StartPass(plan.scans[i], true)]
    ensures !plan.optimize ==> Statistics(plan, i) == []
    ensures plan.optimize ==> Gathers(plan, i)
  {
  }

  lemma {:induction false} Opened(plan: Plan, i: nat, gather: bool)
    requires i < |plan.scans|
    ensures gather ==> Opening(plan, i, gather) == [StartPass(plan.scans[i], true)]
    ensures !gather && i == 0 ==> Opening(plan, i, gather) == [StartPass(plan.scans[i], false), FrameHeader, ScanHeader(plan.scans[i])]
    ensures !gather && i != 0 ==> Opening(plan, i, gather) == [StartPass(plan.scans[i], false), ScanHeader(plan.scans[i])]
  {
  }

  lemma {:induction false} WithoutStatistics(plan: Plan, i: nat)
    requires i < |plan.scans| && DcRefinement(plan.scans[i])
    ensures Statistics(plan, i) == []
  {
  }

  lemma {:induction false} NoStatistics(plan: Plan, i: nat)
    requires i < |plan.scans|
    ensures !plan.optimize ==> Statistics(plan, i) == []
  {
  }

  lemma {:induction false} NoRowsYet(events: seq<Event>)
    ensures events + Rows(0) == events
  {
  }

  /** A pass completes the statistics of a scan, or the scan. */
  lemma {:induction false} LogAfter(plan: Plan, i: nat, gather: bool)
    requires i < |plan.scans| && (gather ==> Gathers(plan, i))
    ensures var done := Opening(plan, i, gather) + Rows(RowsOf(plan, i, gather)) + [FinishPass(plan.scans[i], gather)];
            && (gather ==> done == Statistics(plan, i))
            && (!gather ==> ScanEvents(plan, i) + Statistics(plan, i) + done == ScanEvents(plan, i + 1))
  {
  }

  function Least(a: nat, b: nat): nat {
    if a < b then a else b
  }

  lemma {:induction false} MoreRows(m: nat, n: nat)
    ensures Rows(m + n) == Rows(m) + seq(n, _ => Row) && Rows(1) == [Row]
  {
  }

  // ----- what the log comes to

  function Only(log: seq<Event>, p: Event -> bool): seq<Event> {
    if log == [] then []
    else (if p(log[0]) then [log[0]] else []) + Only(log[1..], p)
  }

  lemma {:induction false} OnlyConcat(a: seq<Event>, b: seq<Event>, p: Event -> bool)
    ensures Only(a + b, p) == Only(a, p) + Only(b, p)
  {
    if a == [] {
      assert a + b == b;
    } else {
      OnlyConcat(a[1..], b, p);
      assert (a + b)[1..] == a[1..] + b;
    }
  }

  lemma {:induction false} OnlyRows(n: nat, p: Event -> bool)
    requires !p(Row)
    ensures Only(Rows(n), p) == []
  {
    if n > 0 {
      OnlyRows(n - 1, p);
      assert Rows(n)[1..] == Rows(n - 1);
    }
  }

  predicate IsHeader(e: Event) {
    e.FrameHeader? || e.ScanHeader?
  }

  predicate IsStart(e: Event) {
    e.StartPass?
  }

  /** A predicate on the beginning of a pass only. */
  lemma {:induction false} OnlyPass(plan: Plan, i: nat, gather: bool, p: Event -> bool)
    requires i < |plan.scans| && !p(Row) && !p(FinishPass(plan.scans[i], gather))
    ensures Only(PassEvents(plan, i, gather), p) == Only(Opening(plan, i, gather), p)
  {
    hide Opening;
    var rows, last := Rows(RowsOf(plan, i, gather)), [FinishPass(plan.scans[i], gather)];
    OnlyConcat(Opening(plan, i, gather) + rows, last, p);
    OnlyConcat(Opening(plan, i, gather), rows, p);
    OnlyRows(RowsOf(plan, i, gather), p);
  }

  /** The headers of the first `n` scans: one frame header, then every scan once, in order. */
  lemma {:induction false} HeadersInOrder(plan: Plan, n: nat)
    requires n <= |plan.scans|
    ensures Only(ScanEvents(plan, n), IsHeader)
         == (if n == 0 then [] else [FrameHeader]) + seq(n, i requires 0 <= i < n => ScanHeader(plan.scans[i]))
  {
    if n > 0 {
      var i := n - 1;
      HeadersInOrder(plan, i);
      ScanHeaders(plan, i);
      hide Only, ScanEvents;
      var headers := seq(n, i requires 0 <= i < n => ScanHeader(plan.scans[i]));
      var before := seq(i, k requires 0 <= k < i => ScanHeader(plan.scans[k]));
      assert headers == before + [ScanHeader(plan.scans[i])];
    }
  }

  lemma {:induction false} ScanHeaders(plan: Plan, i: nat)
    requires i < |plan.scans|
    ensures Only(ScanEvents(plan, i + 1), IsHeader)
         == Only(ScanEvents(plan, i), IsHeader) + ((if i == 0 then [FrameHeader] else []) + [ScanHeader(plan.scans[i])])
  {
    OnlyPass(plan, i, true, IsHeader);
    OnlyPass(plan, i, false, IsHeader);
    OpeningHeaders(plan, i);
    assert Only([], IsHeader) == [];
    var log, stats, pass := ScanEvents(plan, i), Statistics(plan, i), PassEvents(plan, i, false);
    assert ScanEvents(plan, i + 1) == log + stats + pass;
    hide Only, ScanEvents, PassEvents, Opening;
    OnlyConcat(log + stats, pass, IsHeader);
    OnlyConcat(log, stats, IsHeader);
    assert Only(log, IsHeader) + [] == Only(log, IsHeader);
  }

  lemma {:induction false} OpeningHeaders(plan: Plan, i: nat)
    requires i < |plan.scans|
    ensures Only(Opening(plan, i, true), IsHeader) == []
    ensures Only(Opening(plan, i, false), IsHeader) == (if i == 0 then [FrameHeader] else []) + [ScanHeader(plan.scans[i])]
    ensures forall gather :: Only(Opening(plan, i, gather), IsStart) == [StartPass(plan.scans[i], gather)]
  {
    var scan := plan.scans[i];
    Opened(plan, i, true);
    Opened(plan, i, false);
    OnlyOf(StartPass(scan, true), [], IsHeader);
    OnlyOf(StartPass(scan, true), [], IsStart);
    OnlyOf(ScanHeader(scan), [], IsHeader);
    OnlyOf(ScanHeader(scan), [], IsStart);
    OnlyOf(FrameHeader, [ScanHeader(scan)], IsHeader);
    OnlyOf(FrameHeader, [ScanHeader(scan)], IsStart);
    var rest := Opening(plan, i, false)[1..];
    OnlyOf(StartPass(scan, false), rest, IsHeader);
    OnlyOf(StartPass(scan, false), rest, IsStart);
  }

  lemma {:induction false} OnlyOf(e: Event, rest: seq<Event>, p: Event -> bool)
    ensures Only([e] + rest, p) == (if p(e) then [e] else []) + Only(rest, p)
    ensures [e] + [] == [e] && Only([], p) == []
  {
    assert ([e] + rest)[1..] == rest;
  }

  /** The passes themselves: each output pass right after the statistics of its scan. */
  function Passes(plan: Plan, n: nat): seq<Event>
    requires n <= |plan.scans|
  {
    if n == 0 then []
    else
      Passes(plan, n - 1)
      + (if Gathers(plan, n - 1) then [StartPass(plan.scans[n - 1], true)] else [])
      + [StartPass(plan.scans[n - 1], false)]
  }

  lemma {:induction false} PassesInOrder(plan: Plan, n: nat)
    requires n <= |plan.scans|
    ensures Only(ScanEvents(plan, n), IsStart) == Passes(plan, n)
  {
    hide PassEvents;
    if n > 0 {
      var i := n - 1;
      PassesInOrder(plan, i);
      OnlyConcat(ScanEvents(plan, i) + Statistics(plan, i), PassEvents(plan, i, false), IsStart);
      OnlyConcat(ScanEvents(plan, i), Statistics(plan, i), IsStart);
      OnlyPass(plan, i, true, IsStart);
      OnlyPass(plan, i, false, IsStart);
      OpeningHeaders(plan, i);
    }
  }

  // ----- how many rows a pass has

  /** The rows from here to the end of the pass. */
  function RowsAhead(log: seq<Event>): nat {
    if log == [] || log[0].FinishPass? then 0
    else (if log[0].Row? then 1 else 0) + RowsAhead(log[1..])
  }

  /** Every pass that starts at or behind `from` has all scanlines if it is the first event
      of the log and the application supplies them, and all rows of MCUs otherwise. */
  ghost predicate FullPasses(log: seq<Event>, lines: nat, rows: nat) {
    forall i :: 0 <= i < |log| && log[i].StartPass? ==> RowsAhead(log[i..]) == if i == 0 then lines else rows
  }

  /** Starts and ends of passes alternate, and each pass ends as it started. */
  ghost predicate Paired(log: seq<Event>) {
    var ends := Only(log, IsEnd);
    && |ends| % 2 == 0
    && forall i :: 0 <= i < |ends| / 2 ==> IsPair(ends[2 * i], ends[2 * i + 1])
  }

  predicate IsEnd(e: Event) {
    e.StartPass? || e.FinishPass?
  }

  predicate IsPair(a: Event, b: Event) {
    a.StartPass? && b == FinishPass(a.scan, a.gather)
  }

  /** A log of whole passes, the first of them with `lines` rows and the others with `rows`. */
  ghost predicate WholePasses(log: seq<Event>, lines: nat, rows: nat) {
    FullPasses(log, lines, rows) && Paired(log)
  }

  lemma {:induction false} RowsOfPass(opening: seq<Event>, n: nat, last: Event, behind: seq<Event>)
    requires last.FinishPass? && forall i :: 0 <= i < |opening| ==> !opening[i].Row? && !opening[i].FinishPass?
    ensures RowsAhead(opening + Rows(n) + [last] + behind) == n
    decreases |opening| + n
  {
    var log := opening + Rows(n) + [last] + behind;
    if opening != [] {
      assert log[1..] == opening[1..] + Rows(n) + [last] + behind;
      RowsOfPass(opening[1..], n, last, behind);
    } else if n > 0 {
      assert log[0] == Row && log[1..] == [] + Rows(n - 1) + [last] + behind;
      RowsOfPass([], n - 1, last, behind);
    } else {
      assert log[0] == last;
    }
  }

  /** What is behind the end of the pass does not matter. */
  lemma {:induction false} RowsAheadLocal(log: seq<Event>, behind: seq<Event>)
    requires exists i :: 0 <= i < |log| && log[i].FinishPass?
    ensures RowsAhead(log + behind) == RowsAhead(log)
  {
    if !log[0].FinishPass? {
      var i :| 0 <= i < |log| && log[i].FinishPass?;
      assert log[1..][i - 1] == log[i];
      assert (log + behind)[1..] == log[1..] + behind;
      RowsAheadLocal(log[1..], behind);
    }
  }

  lemma {:induction false} OnlyEnds(plan: Plan, i: nat, gather: bool)
    requires i < |plan.scans|
    ensures Only(PassEvents(plan, i, gather), IsEnd) == [StartPass(plan.scans[i], gather), FinishPass(plan.scans[i], gather)]
  {
    var scan := plan.scans[i];
    var start, last, rows := [StartPass(scan, gather)], [FinishPass(scan, gather)], Rows(RowsOf(plan, i, gather));
    var headers := if gather then [] else (if i == 0 then [FrameHeader] else []) + [ScanHeader(scan)];
    OnlyConcat(start + headers + rows, last, IsEnd);
    OnlyConcat(start + headers, rows, IsEnd);
    OnlyConcat(start, headers, IsEnd);
    OnlyRows(RowsOf(plan, i, gather), IsEnd);
    OnlyOf(FrameHeader, [ScanHeader(scan)], IsEnd);
    OnlyOf(ScanHeader(scan), [], IsEnd);
    OnlyOf(StartPass(scan, gather), [], IsEnd);
    OnlyOf(FinishPass(scan, gather), [], IsEnd);
  }

  /** One more pass at the end of the log. */
  lemma {:induction false} AppendPass(log: seq<Event>, plan: Plan, i: nat, gather: bool, lines: nat, rows: nat)
    requires i < |plan.scans| && WholePasses(log, lines, rows)
    requires log != [] ==> log[|log| - 1].FinishPass?
    requires RowsOf(plan, i, gather) == if log == [] then lines else rows
    ensures WholePasses(log + PassEvents(plan, i, gather), lines, rows)
  {
    var pass := PassEvents(plan, i, gather);
    AppendPaired(log, plan, i, gather);
    hide Only, Paired, PassEvents, RowsOf;
    var more := log + pass;
    forall k | 0 <= k < |more| && more[k].StartPass?
      ensures RowsAhead(more[k..]) == if k == 0 then lines else rows
    {
      if k < |log| {
        assert more[k..] == log[k..] + pass;
        assert log[k..][|log| - 1 - k].FinishPass?;
        RowsAheadLocal(log[k..], pass);
      } else {
        assert more[k] == pass[k - |log|];
        StartsPass(plan, i, gather, k - |log|);
        assert more[k..] == pass;
        PassRows(plan, i, gather);
      }
    }
  }

  lemma {:induction false} AppendPaired(log: seq<Event>, plan: Plan, i: nat, gather: bool)
    requires i < |plan.scans| && Paired(log)
    ensures Paired(log + PassEvents(plan, i, gather))
  {
    OnlyConcat(log, PassEvents(plan, i, gather), IsEnd);
    OnlyEnds(plan, i, gather);
    hide Only, PassEvents;
    var ends, pair := Only(log, IsEnd), [StartPass(plan.scans[i], gather), FinishPass(plan.scans[i], gather)];
    var all := ends + pair;
    forall k | 0 <= k < |all| / 2
      ensures IsPair(all[2 * k], all[2 * k + 1])
    {
      if k < |ends| / 2 {
        assert all[2 * k] == ends[2 * k] && all[2 * k + 1] == ends[2 * k + 1];
      }
    }
  }

  lemma {:induction false} StartsPass(plan: Plan, i: nat, gather: bool, k: nat)
    requires i < |plan.scans| && k < |PassEvents(plan, i, gather)| && PassEvents(plan, i, gather)[k].StartPass?
    ensures k == 0
  {
  }

  lemma {:induction false} PassRows(plan: Plan, i: nat, gather: bool)
    requires i < |plan.scans|
    ensures RowsAhead(PassEvents(plan, i, gather)) == RowsOf(plan, i, gather)
    ensures PassEvents(plan, i, gather) != []
    ensures PassEvents(plan, i, gather)[|PassEvents(plan, i, gather)| - 1].FinishPass?
  {
    var pass := PassEvents(plan, i, gather);
    RowsOfPass(Opening(plan, i, gather), RowsOf(plan, i, gather), FinishPass(plan.scans[i], gather), []);
    assert pass == pass + [];
  }

  /** Whole passes so far, and the log ends with one. */
  ghost predicate Whole(log: seq<Event>, lines: nat, rows: nat) {
    WholePasses(log, lines, rows) && (log != [] ==> log[|log| - 1].FinishPass?)
  }

  lemma {:induction false} AppendWhole(log: seq<Event>, plan: Plan, i: nat, gather: bool, lines: nat, rows: nat)
    requires i < |plan.scans| && Whole(log, lines, rows)
    requires RowsOf(plan, i, gather) == if log == [] then lines else rows
    ensures Whole(log + PassEvents(plan, i, gather), lines, rows) && log + PassEvents(plan, i, gather) != []
  {
    hide WholePasses, PassEvents, RowsOf;
    AppendPass(log, plan, i, gather, lines, rows);
    PassRows(plan, i, gather);
  }

  lemma {:induction false} NoPasses(lines: nat, rows: nat)
    ensures Whole([], lines, rows)
  {
  }

  /** Every pass of the first `n` scans is complete. */
  lemma {:induction false} PassesAreWhole(plan: Plan, n: nat)
    requires ValidPlan(plan) && n <= |plan.scans|
    ensures Whole(ScanEvents(plan, n), if plan.transcode then plan.rows else plan.lines, plan.rows)
    ensures ScanEvents(plan, n) == [] <==> n == 0
  {
    hide Whole, PassEvents;
    var lines := if plan.transcode then plan.rows else plan.lines;
    if n == 0 {
      NoPasses(lines, plan.rows);
    } else {
      PassesAreWhole(plan, n - 1);
      var log, stats := ScanEvents(plan, n - 1), Statistics(plan, n - 1);
      if Gathers(plan, n - 1) {
        AppendWhole(log, plan, n - 1, true, lines, plan.rows);
      } else {
        assert log + stats == log;
      }
      AppendWhole(log + stats, plan, n - 1, false, lines, plan.rows);
    }
  }

  /** The trailer changes nothing. */
  lemma {:induction false} TrailerIsNoPass(log: seq<Event>, lines: nat, rows: nat)
    requires Whole(log, lines, rows) && log != []
    ensures WholePasses(log + [Trailer], lines, rows)
  {
    OnlyConcat(log, [Trailer], IsEnd);
    OnlyOf(Trailer, [], IsEnd);
    hide Only;
    var more := log + [Trailer];
    forall k | 0 <= k < |more| && more[k].StartPass?
      ensures RowsAhead(more[k..]) == if k == 0 then lines else rows
    {
      assert more[k..] == log[k..] + [Trailer];
      assert log[k..][|log| - 1 - k].FinishPass?;
      RowsAheadLocal(log[k..], [Trailer]);
    }
  }

  // ----- from the parameters to the file

  /** A script that was accepted starts with a first scan. */
  lemma {:induction false} FirstScanIsFirst(n: nat, scans: seq<ScanInfo>)
    requires WellFormed(scans) && ValidScript(n, scans)
    ensures !DcRefinement(scans[0])
  {
    assert ScanOk(n, scans, 0);
    assert IndexOk(n, scans[0], 0);
    var c := scans[0].componentIndex[0];
    if scans[0].ss == 0 {
      assert Covers(scans[0], c, 0);
      assert LastBit(scans, 0, c, 0) == -1;
    }
  }

  datatype Call = Call(numLines: nat, consumed: nat)

  predicate ScriptOk(options: Options, plan: Plan) {
    plan.scans == if options.script == [] then [OneScan(options.numComponents)] else options.script
  }

  /** The file is complete: one frame header, followed by the headers of all scans in
      order; each scan was output once, right after its statistics pass if it has one. */
  ghost predicate Complete(plan: Plan, events: seq<Event>) {
    var n := |plan.scans|;
    && events == ScanEvents(plan, n) + [Trailer]
    && Only(events, IsHeader) == [FrameHeader] + seq(n, i requires 0 <= i < n => ScanHeader(plan.scans[i]))
    && Only(events, IsStart) == Passes(plan, n)
  }

  lemma {:induction false} LogComplete(plan: Plan, events: seq<Event>)
    requires plan.scans != [] && events == ScanEvents(plan, |plan.scans|) + [Trailer]
    ensures Complete(plan, events)
  {
    hide ScanEvents, Passes;
    var n := |plan.scans|;
    HeadersInOrder(plan, n);
    PassesInOrder(plan, n);
    OnlyConcat(ScanEvents(plan, n), [Trailer], IsHeader);
    OnlyConcat(ScanEvents(plan, n), [Trailer], IsStart);
    OnlyOf(Trailer, [], IsHeader);
    OnlyOf(Trailer, [], IsStart);
  }

  method Validate(options: Options) returns (outcome: Outcome, progressive: bool)
    requires WellFormed(options.script) && options.numComponents <= MAX_COMPONENTS
    ensures outcome == Done || outcome.BadScript?
    ensures outcome == Done <==> (options.script == [] || ValidScript(options.numComponents, options.script))
    ensures outcome == Done ==> progressive == (options.script != [] && Progressive(options.script))
    ensures outcome == Done && options.script != [] ==> !DcRefinement(options.script[0])
  {
    hide ValidScript, ScansOk, ScanOk;
    outcome, progressive := Done, false;
    if options.script != [] {
      var verdict := ValidateScript(options.numComponents, options.script);
      if !verdict.Accepted? {
        return BadScript(verdict), false;
      }
      progressive := verdict.progressive;
      FirstScanIsFirst(options.numComponents, options.script);
    }
  }

  /** An image of more than four components needs a script, and the arithmetic coder cannot
      be optimized. */
  predicate CanCompress(options: Options) {
    && (options.arithCode ==> !options.optimizeCoding)
    && (options.script == [] ==> options.numComponents <= MAX_COMPS_IN_SCAN)
  }

  /** The lines that calls deliver and the destination takes. */
  function Delivered(calls: seq<Call>): nat {
    if calls == [] then 0
    else Delivered(calls[..|calls| - 1]) + Least(calls[|calls| - 1].numLines, calls[|calls| - 1].consumed)
  }

  /** A whole compression: jpeg_start_compress or jpeg_write_coefficients, any calls of
      jpeg_write_scanlines, and jpeg_finish_compress. */
  method Compress(options: Options, calls: seq<Call>) returns (outcome: Outcome, events: seq<Event>, ghost plan: Plan)
    requires WellFormed(options.script) && options.numComponents <= MAX_COMPONENTS && options.imageHeight > 0
    ensures outcome.BadScript? <==> options.script != [] && !ValidScript(options.numComponents, options.script)
    ensures Refused(outcome) <==> !outcome.BadScript? && !CanCompress(options)
    ensures outcome == Done || Refused(outcome) || outcome.BadScript? || outcome == TooLittleData
    ensures outcome == TooLittleData <==>
              !outcome.BadScript? && !Refused(outcome) && !options.transcodeOnly && Delivered(calls) < options.imageHeight
    ensures outcome == Done ==>
              plan.lines == options.imageHeight && plan.rows == options.totalImcuRows && plan.transcode == options.transcodeOnly
    ensures outcome == Done ==>
              WholePasses(events, if options.transcodeOnly then options.totalImcuRows else options.imageHeight, options.totalImcuRows)
    ensures outcome == Done ==> ScriptOk(options, plan) && Complete(plan, events)
    ensures outcome == Done ==>
              plan.optimize == (options.optimizeCoding || (options.script != [] && Progressive(options.script) && !options.arithCode))
  {
    hide ScanEvents, ValidScript, Complete, WholePasses, Compressor.Between, Compressor.Fixed;
    events, plan := [], Plan([], false, false, 0, 0);
    var progressive;
    outcome, progressive := Validate(options);
    if outcome != Done {
      return;
    }
    var c := new Compressor(options, progressive);
    if !options.transcodeOnly {
      outcome := c.PrepareForPass();
      if outcome != Done {
        return;
      }
      hide Compressor.During;
      for i := 0 to |calls|
        invariant c.passType.MainPass? && c.During(c.nextScanline)
        invariant c.nextScanline == Least(Delivered(calls[..i]), options.imageHeight)
      {
        c.WriteScanlines(calls[i].numLines, calls[i].consumed);
        assert calls[..i + 1][..i] == calls[..i];
      }
      assert calls[..|calls|] == calls;
    }
    plan := c.Planned();
    outcome := c.FinishCompress();
    events := c.events;
    if outcome == Done {
      c.SomeScan();
      LogComplete(plan, events);
    }
  }
}
