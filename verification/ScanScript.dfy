/** The validator of multi-scan scripts (jcmaster.c, validate_script). */
module ScanScript {
  const MAX_COMPONENTS := 10
  const MAX_COMPS_IN_SCAN := 4
  const MAX_AH_AL := 10

  /** One entry of a script; `componentIndex` has room for four components. */
  datatype ScanInfo = ScanInfo(compsInScan: int, componentIndex: seq<int>, ss: int, se: int, ah: int, al: int)

  datatype Verdict =
    | Accepted(progressive: bool)
    | BadScanScript(scanNumber: nat)
    | BadComponentCount(scanNumber: nat)
    | BadProgScript(scanNumber: nat)
    | MissingData

  predicate WellFormed(scans: seq<ScanInfo>) {
    forall i :: 0 <= i < |scans| ==> |scans[i].componentIndex| == MAX_COMPS_IN_SCAN
  }

  // ----- what a valid script is, scan by scan

  predicate Progressive(scans: seq<ScanInfo>)
    requires scans != []
  {
    scans[0].ss != 0 || scans[0].se != 63
  }

  predicate CountOk(scan: ScanInfo) {
    0 < scan.compsInScan <= MAX_COMPS_IN_SCAN
  }

  /** Known components, in frame order. */
  predicate IndexOk(n: nat, scan: ScanInfo, ci: nat)
    requires |scan.componentIndex| == MAX_COMPS_IN_SCAN && ci < MAX_COMPS_IN_SCAN
  {
    && 0 <= scan.componentIndex[ci] < n
    && (ci > 0 ==> scan.componentIndex[ci - 1] < scan.componentIndex[ci])
  }

  predicate ComponentsOk(n: nat, scan: ScanInfo)
    requires |scan.componentIndex| == MAX_COMPS_IN_SCAN
  {
    CountOk(scan) && forall ci :: 0 <= ci < scan.compsInScan ==> IndexOk(n, scan, ci)
  }

  /** The scan codes coefficient `k` of component `c`. */
  predicate Covers(scan: ScanInfo, c: int, k: int) {
    scan.ss <= k <= scan.se && exists ci :: 0 <= ci < scan.compsInScan && ci < |scan.componentIndex| && scan.componentIndex[ci] == c
  }

  /** The precision reached for a coefficient by the first `n` scans: the `al` of the
      last scan that codes it, -1 if there is none. */
  function LastBit(scans: seq<ScanInfo>, n: nat, c: int, k: int): int
    requires n <= |scans|
  {
    if n == 0 then -1
    else if Covers(scans[n - 1], c, k) then scans[n - 1].al
    else LastBit(scans, n - 1, c, k)
  }

  predicate RangesOk(scan: ScanInfo) {
    && 0 <= scan.ss <= scan.se < 64 && 0 <= scan.ah <= MAX_AH_AL && 0 <= scan.al <= MAX_AH_AL
    && if scan.ss == 0 then scan.se == 0 else scan.compsInScan == 1
  }

  /** The first scan of a coefficient starts at any precision; every later one adds
      exactly the next bit. */
  predicate StepOk(last: int, ah: int, al: int) {
    if last < 0 then ah == 0 else ah == last && al == ah - 1
  }

  ghost predicate ProgressionOk(scans: seq<ScanInfo>, i: nat)
    requires i < |scans|
  {
    && RangesOk(scans[i])
    && (forall c, k :: Covers(scans[i], c, k) ==> StepOk(LastBit(scans, i, c, k), scans[i].ah, scans[i].al))
    && (scans[i].ss != 0 ==> forall c :: Covers(scans[i], c, scans[i].ss) ==> LastBit(scans, i, c, 0) >= 0)
  }

  ghost predicate SequentialOk(scans: seq<ScanInfo>, i: nat)
    requires i < |scans|
  {
    ParametersOk(scans[i]) && OnceOk(scans, i)
  }

  predicate ParametersOk(scan: ScanInfo) {
    scan.ss == 0 && scan.se == 63 && scan.ah == 0 && scan.al == 0
  }

  /** No component of the scan has been sent. */
  ghost predicate OnceOk(scans: seq<ScanInfo>, i: nat)
    requires i < |scans|
  {
    forall c :: Covers(scans[i], c, 0) ==> LastBit(scans, i, c, 0) < 0
  }

  ghost predicate ScanOk(n: nat, scans: seq<ScanInfo>, i: nat)
    requires WellFormed(scans) && i < |scans|
  {
    ComponentsOk(n, scans[i]) && if Progressive(scans) then ProgressionOk(scans, i) else SequentialOk(scans, i)
  }

  ghost predicate ScansOk(n: nat, scans: seq<ScanInfo>, count: nat)
    requires WellFormed(scans) && count <= |scans|
  {
    forall i :: 0 <= i < count ==> ScanOk(n, scans, i)
  }

  ghost predicate ValidScript(n: nat, scans: seq<ScanInfo>)
    requires WellFormed(scans)
  {
    && scans != [] && ScansOk(n, scans, |scans|)
    && forall c :: 0 <= c < n ==> LastBit(scans, |scans|, c, 0) >= 0
  }

  lemma {:induction false} Increasing(n: nat, scan: ScanInfo, a: nat, b: nat)
    requires |scan.componentIndex| == MAX_COMPS_IN_SCAN && ComponentsOk(n, scan) && a < b < scan.compsInScan
    ensures scan.componentIndex[a] < scan.componentIndex[b]
  {
    assert IndexOk(n, scan, b);
    if a < b - 1 {
      Increasing(n, scan, a, b - 1);
    }
  }

  // ----- the validator

  /** The table of last bit positions after the first `i` scans. */
  ghost predicate Tracks(table: array2<int>, n: nat, scans: seq<ScanInfo>, i: nat)
    requires i <= |scans|
    reads table
  {
    && table.Length0 == MAX_COMPONENTS && table.Length1 == 64 && n <= MAX_COMPONENTS
    && forall c, k :: 0 <= c < n && 0 <= k < 64 ==> table[c, k] == LastBit(scans, i, c, k)
  }

  method CheckComponents(n: nat, scan: ScanInfo) returns (ok: bool)
    requires |scan.componentIndex| == MAX_COMPS_IN_SCAN && CountOk(scan)
    ensures ok <==> ComponentsOk(n, scan)
  {
    for ci := 0 to scan.compsInScan
      invariant forall j :: 0 <= j < ci ==> IndexOk(n, scan, j)
    {
      var index := scan.componentIndex[ci];
      if index < 0 || index >= n || (ci > 0 && index <= scan.componentIndex[ci - 1]) {
        assert !IndexOk(n, scan, ci);
        return false;
      }
    }
    return true;
  }

  /** One component of a progressive scan against its row of the table. */
  method CheckRow(scan: ScanInfo, c: nat, table: array2<int>) returns (ok: bool)
    requires RangesOk(scan) && c < table.Length0 && table.Length1 == 64
    modifies table
    ensures ok <==> && (scan.ss != 0 ==> old(table[c, 0]) >= 0)
                    && forall k :: scan.ss <= k <= scan.se ==> StepOk(old(table[c, k]), scan.ah, scan.al)
    ensures ok ==> forall d, k :: 0 <= d < table.Length0 && 0 <= k < 64 ==>
              table[d, k] == if d == c && scan.ss <= k <= scan.se then scan.al else old(table[d, k])
  {
    if scan.ss != 0 && table[c, 0] < 0 {
      return false;
    }
    for k := scan.ss to scan.se + 1
      invariant forall j :: scan.ss <= j < k ==> StepOk(old(table[c, j]), scan.ah, scan.al)
      invariant forall d, j :: 0 <= d < table.Length0 && 0 <= j < 64 ==>
              table[d, j] == if d == c && scan.ss <= j < k then scan.al else old(table[d, j])
    {
      if table[c, k] < 0 {
        if scan.ah != 0 {
          assert !StepOk(old(table[c, k]), scan.ah, scan.al);
          return false;
        }
      } else if scan.ah != table[c, k] || scan.al != scan.ah - 1 {
        assert !StepOk(old(table[c, k]), scan.ah, scan.al);
        return false;
      }
      table[c, k] := scan.al;
    }
    return true;
  }

  /** A whole progressive scan; the table follows it. */
  method CheckProgression(n: nat, scans: seq<ScanInfo>, i: nat, table: array2<int>) returns (ok: bool)
    requires WellFormed(scans) && i < |scans| && ComponentsOk(n, scans[i]) && Tracks(table, n, scans, i)
    modifies table
    ensures ok <==> ProgressionOk(scans, i)
    ensures ok ==> Tracks(table, n, scans, i + 1)
  {
    hide LastBit, StepOk;
    var scan := scans[i];
    if scan.ss < 0 || scan.ss >= 64 || scan.se < scan.ss || scan.se >= 64
       || scan.ah < 0 || scan.ah > MAX_AH_AL || scan.al < 0 || scan.al > MAX_AH_AL {
      return false;
    }
    if scan.ss == 0 {
      if scan.se != 0 {
        return false;
      }
    } else if scan.compsInScan != 1 {
      return false;
    }
    for ci := 0 to scan.compsInScan
      invariant table.Length0 == MAX_COMPONENTS && table.Length1 == 64
      invariant forall j :: 0 <= j < ci ==> RowOk(scans, i, scan.componentIndex[j])
      invariant forall c, k :: 0 <= c < n && 0 <= k < 64 ==>
              table[c, k] == if c in scan.componentIndex[..ci] && scan.ss <= k <= scan.se then scan.al else LastBit(scans, i, c, k)
    {
      var c := scan.componentIndex[ci];
      assert IndexOk(n, scan, ci);
      NotYet(n, scan, ci);
      label before:
      ok := CheckRow(scan, c, table);
      assert ok <==> RowOk(scans, i, c);
      if !ok {
        RowsDecide(n, scans, i);
        return;
      }
      assert scan.componentIndex[..ci + 1] == scan.componentIndex[..ci] + [c];
    }
    RowsDecide(n, scans, i);
    forall c, k | 0 <= c < n && 0 <= k < 64
      ensures table[c, k] == LastBit(scans, i + 1, c, k)
    {
      LastBitStep(scans, i, c, k);
    }
    ok := true;
  }

  ghost predicate RowOk(scans: seq<ScanInfo>, i: nat, c: int)
    requires i < |scans|
  {
    && (scans[i].ss != 0 ==> LastBit(scans, i, c, 0) >= 0)
    && forall k :: scans[i].ss <= k <= scans[i].se ==> StepOk(LastBit(scans, i, c, k), scans[i].ah, scans[i].al)
  }

  lemma {:induction false} LastBitStep(scans: seq<ScanInfo>, i: nat, c: int, k: int)
    requires i < |scans| && |scans[i].componentIndex| == MAX_COMPS_IN_SCAN && CountOk(scans[i])
    ensures LastBit(scans, i + 1, c, k)
         == if c in scans[i].componentIndex[..scans[i].compsInScan] && scans[i].ss <= k <= scans[i].se then scans[i].al
            else LastBit(scans, i, c, k)
  {
  }

  lemma {:induction false} NotYet(n: nat, scan: ScanInfo, ci: nat)
    requires |scan.componentIndex| == MAX_COMPS_IN_SCAN && ComponentsOk(n, scan) && ci < scan.compsInScan
    ensures scan.componentIndex[ci] !in scan.componentIndex[..ci]
  {
    forall a | 0 <= a < ci
      ensures scan.componentIndex[a] < scan.componentIndex[ci]
    {
      Increasing(n, scan, a, ci);
    }
  }

  lemma {:induction false} RowsDecide(n: nat, scans: seq<ScanInfo>, i: nat)
    requires WellFormed(scans) && i < |scans| && ComponentsOk(n, scans[i]) && RangesOk(scans[i])
    ensures ProgressionOk(scans, i) <==>
              forall ci :: 0 <= ci < scans[i].compsInScan ==> RowOk(scans, i, scans[i].componentIndex[ci])
  {
    hide LastBit, StepOk, IndexOk;
    var scan := scans[i];
    if ProgressionOk(scans, i) {
      forall ci | 0 <= ci < scan.compsInScan
        ensures RowOk(scans, i, scan.componentIndex[ci])
      {
        assert forall k :: scan.ss <= k <= scan.se ==> Covers(scan, scan.componentIndex[ci], k);
      }
    }
  }

  /** A sequential scan with its fixed parameters: every component at most once. */
  method CheckSequential(n: nat, scans: seq<ScanInfo>, i: nat, sent: array<bool>) returns (ok: bool)
    requires WellFormed(scans) && i < |scans| && ComponentsOk(n, scans[i]) && ParametersOk(scans[i])
    requires sent.Length == MAX_COMPONENTS && n <= MAX_COMPONENTS
    requires forall c :: 0 <= c < n ==> (sent[c] <==> LastBit(scans, i, c, 0) >= 0)
    modifies sent
    ensures ok <==> OnceOk(scans, i)
    ensures ok ==> forall c :: 0 <= c < n ==> (sent[c] <==> LastBit(scans, i + 1, c, 0) >= 0)
  {
    hide LastBit;
    var scan := scans[i];
    for ci := 0 to scan.compsInScan
      invariant forall j :: 0 <= j < ci ==> LastBit(scans, i, scan.componentIndex[j], 0) < 0
      invariant forall c :: 0 <= c < n ==> (sent[c] <==> c in scan.componentIndex[..ci] || LastBit(scans, i, c, 0) >= 0)
    {
      var c := scan.componentIndex[ci];
      assert IndexOk(n, scan, ci);
      NotYet(n, scan, ci);
      if sent[c] {
        assert Covers(scan, c, 0);
        return false;
      }
      sent[c] := true;
      assert scan.componentIndex[..ci + 1] == scan.componentIndex[..ci] + [c];
    }
    forall c | 0 <= c < n
      ensures sent[c] <==> LastBit(scans, i + 1, c, 0) >= 0
    {
      LastBitStep(scans, i, c, 0);
    }
    ok := true;
  }

  /** The verdict names the first scan that breaks a rule, and the first rule it breaks. */
  ghost predicate Justified(n: nat, scans: seq<ScanInfo>, verdict: Verdict)
    requires WellFormed(scans)
  {
    match verdict
    case Accepted(progressive) => ValidScript(n, scans) && progressive == Progressive(scans)
    case BadScanScript(number) =>
      if number == 0 then scans == []
      else
        && number <= |scans| && ScansOk(n, scans, number - 1) && CountOk(scans[number - 1])
        && (ComponentsOk(n, scans[number - 1]) ==>
              !Progressive(scans) && ParametersOk(scans[number - 1]) && !OnceOk(scans, number - 1))
    case BadComponentCount(number) =>
      0 < number <= |scans| && ScansOk(n, scans, number - 1) && !CountOk(scans[number - 1])
    case BadProgScript(number) =>
      && 0 < number <= |scans| && ScansOk(n, scans, number - 1) && ComponentsOk(n, scans[number - 1])
      && if Progressive(scans) then !ProgressionOk(scans, number - 1) else !ParametersOk(scans[number - 1])
    case MissingData =>
      scans != [] && ScansOk(n, scans, |scans|) && exists c :: 0 <= c < n && LastBit(scans, |scans|, c, 0) < 0
  }

  method ValidateScript(n: nat, scans: seq<ScanInfo>) returns (verdict: Verdict)
    requires WellFormed(scans) && n <= MAX_COMPONENTS
    ensures verdict.Accepted? <==> ValidScript(n, scans)
    ensures Justified(n, scans, verdict)
  {
    hide LastBit, ProgressionOk, OnceOk, IndexOk;
    if |scans| == 0 {
      return BadScanScript(0);
    }
    var progressive := scans[0].ss != 0 || scans[0].se != 63;
    var table := new int[MAX_COMPONENTS, 64]((c, k) => -1);
    var sent := new bool[MAX_COMPONENTS](c => false);
    NothingYet(scans);
    for i := 0 to |scans|
      invariant ScansOk(n, scans, i)
      invariant fresh(table) && fresh(sent) && sent.Length == MAX_COMPONENTS
      invariant progressive ==> Tracks(table, n, scans, i)
      invariant !progressive ==> forall c :: 0 <= c < n ==> (sent[c] <==> LastBit(scans, i, c, 0) >= 0)
    {
      if scans[i].compsInScan <= 0 || scans[i].compsInScan > MAX_COMPS_IN_SCAN {
        assert !ScanOk(n, scans, i);
        return BadComponentCount(i + 1);
      }
      var ok := CheckComponents(n, scans[i]);
      if !ok {
        assert !ScanOk(n, scans, i);
        return BadScanScript(i + 1);
      }
      if progressive {
        ok := CheckProgression(n, scans, i, table);
        if !ok {
          assert !ScanOk(n, scans, i);
          return BadProgScript(i + 1);
        }
      } else {
        if scans[i].ss != 0 || scans[i].se != 63 || scans[i].ah != 0 || scans[i].al != 0 {
          assert !ScanOk(n, scans, i);
          return BadProgScript(i + 1);
        }
        ok := CheckSequential(n, scans, i, sent);
        if !ok {
          assert !ScanOk(n, scans, i);
          return BadScanScript(i + 1);
        }
      }
    }
    for c := 0 to n
      invariant forall d :: 0 <= d < c ==> LastBit(scans, |scans|, d, 0) >= 0
    {
      if (if progressive then table[c, 0] < 0 else !sent[c]) {
        assert LastBit(scans, |scans|, c, 0) < 0;
        return MissingData;
      }
    }
    verdict := Accepted(progressive);
  }

  lemma {:induction false} NothingYet(scans: seq<ScanInfo>)
    ensures forall c, k :: LastBit(scans, 0, c, k) == -1
  {
  }
}
