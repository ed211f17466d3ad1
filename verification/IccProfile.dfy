/** ICC profiles split over APP2 markers and put together again (jcicc.c, jdicc.c). */
module IccProfile {
  import opened Shifts
  import opened ByteCode

  const ICC_MARKER := 0xE2
  const OVERHEAD := 14
  const MAX_DATA := 65533 - OVERHEAD
  const MAX_SEQ := 255
  const IDENTIFIER: seq<Byte> := [0x49, 0x43, 0x43, 0x5F, 0x50, 0x52, 0x4F, 0x46, 0x49, 0x4C, 0x45, 0x0]

  /** A marker with its data. */
  datatype Marker = Marker(code: nat, data: seq<Byte>)

  predicate IsIcc(m: Marker) {
    && m.code == ICC_MARKER && |m.data| >= OVERHEAD
    && m.data[0] == 0x49 && m.data[1] == 0x43 && m.data[2] == 0x43 && m.data[3] == 0x5F
    && m.data[4] == 0x50 && m.data[5] == 0x52 && m.data[6] == 0x4F && m.data[7] == 0x46
    && m.data[8] == 0x49 && m.data[9] == 0x4C && m.data[10] == 0x45 && m.data[11] == 0x0
  }

  function SeqNo(m: Marker): (s: nat)
    requires IsIcc(m)
    ensures s <= MAX_SEQ
  {
    m.data[12]
  }

  function Count(m: Marker): nat
    requires IsIcc(m)
  {
    m.data[13]
  }

  function Body(m: Marker): seq<Byte>
    requires IsIcc(m)
  {
    m.data[OVERHEAD..]
  }

  // ----- writing

  /** Marker `k` of `n`, with the numbers in one byte each. */
  function Part(k: nat, n: nat, chunk: seq<Byte>): (m: Marker)
    ensures IsIcc(m) && SeqNo(m) == k % 256 && Count(m) == n % 256 && Body(m) == chunk
  {
    Marker(ICC_MARKER, IDENTIFIER + [k % 256, n % 256] + chunk)
  }

  function Parts(profile: seq<Byte>): (n: nat)
    ensures n * MAX_DATA >= |profile| && (n > 0 ==> (n - 1) * MAX_DATA < |profile|)
  {
    |profile| / MAX_DATA + if |profile| / MAX_DATA * MAX_DATA != |profile| then 1 else 0
  }

  /** The bytes of part `k`, counted from 1. */
  function Chunk(profile: seq<Byte>, k: nat): seq<Byte>
    requires 1 <= k <= Parts(profile)
  {
    profile[(k - 1) * MAX_DATA..if k * MAX_DATA <= |profile| then k * MAX_DATA else |profile|]
  }

  function Written(profile: seq<Byte>): (ms: seq<Marker>)
    ensures |ms| == Parts(profile)
    ensures forall i :: 0 <= i < |ms| ==> ms[i] == Part(i + 1, Parts(profile), Chunk(profile, i + 1))
  {
    seq(Parts(profile), i requires 0 <= i < Parts(profile) => Part(i + 1, Parts(profile), Chunk(profile, i + 1)))
  }

  lemma {:induction false} AllWritten(profile: seq<Byte>, markers: seq<Marker>)
    requires |markers| == Parts(profile) && WrittenSoFar(profile, markers)
    ensures markers == Written(profile)
  {
    hide Part, Chunk, Parts;
  }

  lemma {:induction false} ChunkIs(profile: seq<Byte>, k: nat, from: nat, to: nat)
    requires 1 <= k <= Parts(profile) && from == (k - 1) * MAX_DATA
    requires to == if k * MAX_DATA <= |profile| then k * MAX_DATA else |profile|
    ensures from <= to <= |profile| && Chunk(profile, k) == profile[from..to]
  {
  }

  /** Every marker is as long as a marker can be, but for the last, which is not empty. */
  lemma {:induction false} MarkersAreFull(profile: seq<Byte>, i: nat)
    requires i < |Written(profile)|
    ensures Written(profile)[i].code == 0xE2
    ensures i < |Written(profile)| - 1 ==> |Written(profile)[i].data| == 65535 - 2
    ensures 14 < |Written(profile)[i].data| <= 65535 - 2
  {
    var k := i + 1;
    var n := Parts(profile);
    assert n * MAX_DATA >= |profile| && (n - 1) * MAX_DATA < |profile|;
    assert k < n ==> k * MAX_DATA <= (n - 1) * MAX_DATA;
    ChunkIs(profile, k, (k - 1) * MAX_DATA, if k * MAX_DATA <= |profile| then k * MAX_DATA else |profile|);
    hide Chunk, Parts;
  }

  predicate WrittenSoFar(profile: seq<Byte>, markers: seq<Marker>) {
    && |markers| <= Parts(profile)
    && forall i :: 0 <= i < |markers| ==> markers[i] == Part(i + 1, Parts(profile), Chunk(profile, i + 1))
  }

  lemma {:induction false} NothingWritten(profile: seq<Byte>)
    ensures WrittenSoFar(profile, [])
  {
  }

  lemma {:induction false} OneMoreWritten(profile: seq<Byte>, markers: seq<Marker>, n: nat)
    requires WrittenSoFar(profile, markers) && n == |markers| + 1 && n <= Parts(profile)
    ensures WrittenSoFar(profile, markers + [Part(n, Parts(profile), Chunk(profile, n))])
  {
    hide Part, Chunk, Parts;
  }

  /** Fails on an empty profile. */
  method WriteIccProfile(profile: seq<Byte>) returns (ok: bool, markers: seq<Marker>)
    ensures ok <==> profile != []
    ensures ok ==> markers == Written(profile)
  {
    markers := [];
    if |profile| == 0 {
      return false, [];
    }
    var numMarkers := |profile| / MAX_DATA;
    if numMarkers * MAX_DATA != |profile| {
      numMarkers := numMarkers + 1;
    }
    assert numMarkers == Parts(profile) && (numMarkers - 1) * MAX_DATA < |profile| <= numMarkers * MAX_DATA;
    hide Part, Chunk, Written, Parts, WrittenSoFar;
    NothingWritten(profile);
    var curMarker, at, left := 1, 0, |profile|;
    while left > 0
      invariant 1 <= curMarker <= numMarkers + 1 && |markers| == curMarker - 1
      invariant at + left == |profile| && left >= 0 && (left > 0 ==> at == (curMarker - 1) * MAX_DATA)
      invariant left == 0 ==> curMarker == numMarkers + 1
      invariant WrittenSoFar(profile, markers)
      decreases left
    {
      var length := if left > MAX_DATA then MAX_DATA else left;
      left := left - length;
      ChunkIs(profile, curMarker, at, at + length);
      OneMoreWritten(profile, markers, curMarker);
      markers := markers + [Part(curMarker, numMarkers, profile[at..at + length])];
      at := at + length;
      curMarker := curMarker + 1;
    }
    AllWritten(profile, markers);
    ok := true;
  }

  // ----- reading

  /** The body of the first ICC marker with a sequence number. */
  function Found(ms: seq<Marker>, s: nat): seq<Byte> {
    if ms == [] then []
    else if IsIcc(ms[0]) && SeqNo(ms[0]) == s then Body(ms[0])
    else Found(ms[1..], s)
  }

  /** The parts 1..s in order. */
  function Assembled(ms: seq<Marker>, s: nat): seq<Byte> {
    if s == 0 then [] else Assembled(ms, s - 1) + Found(ms, s)
  }

  predicate IccAt(ms: seq<Marker>, i: int) {
    0 <= i < |ms| && IsIcc(ms[i])
  }

  /** The ICC markers all say there are `n` and number themselves 1..n without a
      duplicate. */
  ghost predicate Numbered(ms: seq<Marker>, n: nat) {
    && (forall i :: IccAt(ms, i) ==> Count(ms[i]) == n && 1 <= SeqNo(ms[i]) <= n)
    && forall i, j :: IccAt(ms, i) && IccAt(ms, j) && i != j ==> SeqNo(ms[i]) != SeqNo(ms[j])
  }

  ghost predicate Present(ms: seq<Marker>, s: nat) {
    exists i :: IccAt(ms, i) && SeqNo(ms[i]) == s
  }

  /** Exactly the lists that hold a profile of `n` parts. */
  ghost predicate HoldsProfile(ms: seq<Marker>, n: nat) {
    && n > 0 && Numbered(ms, n) && (forall s :: 1 <= s <= n ==> Present(ms, s))
    && Assembled(ms, n) != []
  }

  lemma {:induction false} FoundAt(ms: seq<Marker>, n: nat, i: nat)
    requires Numbered(ms, n) && IccAt(ms, i)
    ensures Found(ms, SeqNo(ms[i])) == Body(ms[i])
    decreases |ms|
  {
    if i > 0 {
      assert IccAt(ms, 0) ==> SeqNo(ms[0]) != SeqNo(ms[i]);
      NumberedTail(ms, n);
      assert IccAt(ms[1..], i - 1);
      FoundAt(ms[1..], n, i - 1);
    }
  }

  lemma {:induction false} NumberedTail(ms: seq<Marker>, n: nat)
    requires ms != [] && Numbered(ms, n)
    ensures Numbered(ms[1..], n)
  {
    forall i | IccAt(ms[1..], i)
      ensures IccAt(ms, i + 1) && ms[1..][i] == ms[i + 1]
    {
    }
  }

  lemma {:induction false} AssembledGrows(ms: seq<Marker>, s: nat, t: nat)
    requires s <= t
    ensures |Assembled(ms, s)| <= |Assembled(ms, t)| && Assembled(ms, t)[..|Assembled(ms, s)|] == Assembled(ms, s)
    decreases t
  {
    if s < t {
      AssembledGrows(ms, s, t - 1);
    }
  }

  /** Where the part with number `s` goes. */
  function Offset(ms: seq<Marker>, s: nat): nat
    requires s >= 1
  {
    |Assembled(ms, s - 1)|
  }

  /** Parts do not overlap. */
  lemma {:induction false} PartsApart(ms: seq<Marker>, s: nat, t: nat)
    requires 1 <= s < t
    ensures Offset(ms, s) + |Found(ms, s)| <= Offset(ms, t)
  {
    hide Assembled, Found;
    AssembledNext(ms, s);
    AssembledGrows(ms, s, t - 1);
  }

  lemma {:induction false} AssembledNext(ms: seq<Marker>, s: nat)
    requires s >= 1
    ensures Assembled(ms, s) == Assembled(ms, s - 1) + Found(ms, s)
  {
    hide Found;
  }

  lemma {:induction false} PartInside(ms: seq<Marker>, s: nat, n: nat)
    requires 1 <= s <= n
    ensures Offset(ms, s) + |Found(ms, s)| <= |Assembled(ms, n)|
    ensures Assembled(ms, n)[Offset(ms, s)..Offset(ms, s) + |Found(ms, s)|] == Found(ms, s)
  {
    AssembledNext(ms, s);
    AssembledGrows(ms, s, n);
    hide Assembled, Found;
    assert Assembled(ms, n)[..|Assembled(ms, s)|] == Assembled(ms, s);
  }

  /** First pass: is the numbering consistent? `markerPresent` and `dataLength` record
      each part. */
  method CheckNumbering(ms: seq<Marker>) returns (ok: bool, numMarkers: nat, markerPresent: seq<bool>, dataLength: seq<nat>)
    ensures numMarkers <= MAX_SEQ && |markerPresent| == |dataLength| == MAX_SEQ + 1
    ensures ok ==> Numbered(ms, numMarkers) && (numMarkers == 0 ==> forall i :: !IccAt(ms, i))
    ensures ok ==> forall s :: 1 <= s <= MAX_SEQ ==> (markerPresent[s] <==> Present(ms, s))
    ensures ok ==> forall i :: IccAt(ms, i) ==> dataLength[SeqNo(ms[i])] == |Body(ms[i])|
    ensures !ok ==> forall n :: n > 0 ==> !Numbered(ms, n)
  {
    hide IsIcc, Numbered, Present;
    NoMarkers();
    assert ms[..0] == [];
    numMarkers, markerPresent, dataLength := 0, seq(MAX_SEQ + 1, _ => false), seq(MAX_SEQ + 1, _ => 0);
    for i := 0 to |ms|
      invariant numMarkers <= MAX_SEQ && |markerPresent| == |dataLength| == MAX_SEQ + 1
      invariant Numbered(ms[..i], numMarkers) && (numMarkers == 0 <==> forall j :: !IccAt(ms[..i], j))
      invariant forall s :: 1 <= s <= MAX_SEQ ==> (markerPresent[s] <==> Present(ms[..i], s))
      invariant forall j :: IccAt(ms[..i], j) ==> dataLength[SeqNo(ms[..i][j])] == |Body(ms[..i][j])|
    {
      var before := ms[..i];
      assert ms[..i + 1] == before + [ms[i]];
      IccNext(before, ms[i]);
      if IsIcc(ms[i]) {
        SeqNoBounds(ms[i]);
        if numMarkers == 0 {
          NoneNumbered(before);
        }
        if numMarkers == 0 {
          numMarkers := ms[i].data[13];
        } else if numMarkers != ms[i].data[13] {
          NotNumbered(ms, i, numMarkers);
          return false, numMarkers, markerPresent, dataLength;
        }
        var seqNo := ms[i].data[12];
        if seqNo <= 0 || seqNo > numMarkers {
          NotNumbered(ms, i, numMarkers);
          return false, numMarkers, markerPresent, dataLength;
        }
        if markerPresent[seqNo] {
          NotNumbered(ms, i, numMarkers);
          return false, numMarkers, markerPresent, dataLength;
        }
        NextNumbered(before, ms[i], numMarkers);
        AbsentBefore(before, seqNo);
        markerPresent := markerPresent[seqNo := true];
        dataLength := dataLength[seqNo := |ms[i].data| - OVERHEAD];
      } else {
        NextNumbered(before, ms[i], numMarkers);
      }
    }
    assert ms[..|ms|] == ms;
    ok := true;
  }

  lemma {:induction false} NoMarkers()
    ensures forall n :: Numbered([], n)
    ensures forall s :: !Present([], s)
  {
  }

  lemma {:induction false} NoneNumbered(ms: seq<Marker>)
    requires forall i :: !IccAt(ms, i)
    ensures forall n :: Numbered(ms, n)
  {
  }

  lemma {:induction false} AbsentBefore(ms: seq<Marker>, s: nat)
    requires !Present(ms, s)
    ensures forall i :: IccAt(ms, i) ==> SeqNo(ms[i]) != s
  {
  }

  lemma {:induction false} SeqNoBounds(m: Marker)
    requires IsIcc(m)
    ensures |m.data| >= OVERHEAD && m.data[12] == SeqNo(m) <= MAX_SEQ && m.data[13] == Count(m) <= MAX_SEQ
    ensures |Body(m)| == |m.data| - OVERHEAD
  {
  }

  lemma {:induction false} IccNext(before: seq<Marker>, m: Marker)
    ensures forall i :: IccAt(before + [m], i) <==> IccAt(before, i) || (i == |before| && IsIcc(m))
    ensures forall i :: IccAt(before, i) ==> (before + [m])[i] == before[i]
    ensures forall s :: Present(before + [m], s) <==> Present(before, s) || (IsIcc(m) && SeqNo(m) == s)
  {
    hide IsIcc;
    forall s
      ensures Present(before + [m], s) <==> Present(before, s) || (IsIcc(m) && SeqNo(m) == s)
    {
      if Present(before, s) {
        var i :| IccAt(before, i) && SeqNo(before[i]) == s;
        assert IccAt(before + [m], i);
      } else if IsIcc(m) && SeqNo(m) == s {
        assert IccAt(before + [m], |before|);
      }
    }
  }

  lemma {:induction false} NextNumbered(before: seq<Marker>, m: Marker, n: nat)
    requires Numbered(before, n)
    requires IsIcc(m) ==> Count(m) == n && 1 <= SeqNo(m) <= n && !Present(before, SeqNo(m))
    ensures Numbered(before + [m], n)
  {
    hide IsIcc;
    IccNext(before, m);
  }

  /** What makes a list unnumbered for any count. */
  lemma {:induction false} NotNumbered(ms: seq<Marker>, i: nat, n: nat)
    requires IccAt(ms, i) && Numbered(ms[..i], n)
    requires || (Count(ms[i]) != n && exists j :: IccAt(ms[..i], j))
             || (Count(ms[i]) == n && !(1 <= SeqNo(ms[i]) <= n))
             || Present(ms[..i], SeqNo(ms[i]))
    ensures forall k :: k > 0 ==> !Numbered(ms, k)
  {
    hide IsIcc;
    forall k | k > 0
      ensures !Numbered(ms, k)
    {
      if Present(ms[..i], SeqNo(ms[i])) {
        var j :| IccAt(ms[..i], j) && SeqNo(ms[..i][j]) == SeqNo(ms[i]);
        assert IccAt(ms, j) && j != i;
      } else if Count(ms[i]) != n {
        var j :| IccAt(ms[..i], j);
        assert IccAt(ms, j) && Count(ms[j]) == n;
      }
    }
  }

  lemma {:induction false} CountIsUnique(ms: seq<Marker>, n: nat, k: nat)
    requires Numbered(ms, n) && (n == 0 ==> forall i :: !IccAt(ms, i)) && HoldsProfile(ms, k)
    ensures n == k
  {
    assert Present(ms, 1);
  }

  /** Second pass: all parts there, and where each one goes. */
  method PlaceParts(ms: seq<Marker>, n: nat, markerPresent: seq<bool>, dataLength: seq<nat>)
    returns (ok: bool, dataOffset: seq<nat>, totalLength: nat)
    requires n <= MAX_SEQ && |markerPresent| == |dataLength| == MAX_SEQ + 1 && Numbered(ms, n)
    requires forall s :: 1 <= s <= MAX_SEQ ==> (markerPresent[s] <==> Present(ms, s))
    requires forall i :: IccAt(ms, i) ==> dataLength[SeqNo(ms[i])] == |Body(ms[i])|
    ensures ok <==> forall s :: 1 <= s <= n ==> Present(ms, s)
    ensures ok ==> |dataOffset| == MAX_SEQ + 1 && totalLength == |Assembled(ms, n)|
    ensures ok ==> forall s :: 1 <= s <= n ==> dataOffset[s] == Offset(ms, s)
  {
    hide IsIcc, Numbered, Present, Found;
    dataOffset, totalLength := seq(MAX_SEQ + 1, _ => 0), 0;
    for s := 1 to n + 1
      invariant |dataOffset| == MAX_SEQ + 1 && totalLength == |Assembled(ms, s - 1)|
      invariant forall t :: 1 <= t < s ==> Present(ms, t) && dataOffset[t] == Offset(ms, t)
    {
      if !markerPresent[s] {
        return false, dataOffset, totalLength;
      }
      PresentPart(ms, n, s);
      AssembledNext(ms, s);
      dataOffset := dataOffset[s := totalLength];
      totalLength := totalLength + dataLength[s];
    }
    ok := true;
  }

  lemma {:induction false} PresentPart(ms: seq<Marker>, n: nat, s: nat)
    requires Numbered(ms, n) && Present(ms, s)
    ensures exists i :: IccAt(ms, i) && SeqNo(ms[i]) == s && Found(ms, s) == Body(ms[i])
  {
    var i :| IccAt(ms, i) && SeqNo(ms[i]) == s;
    FoundAt(ms, n, i);
  }

  /** Part `s` is in its place. */
  ghost predicate InPlace(ms: seq<Marker>, data: seq<Byte>, s: nat)
    requires s >= 1
  {
    var from := Offset(ms, s);
    from + |Found(ms, s)| <= |data| && data[from..from + |Found(ms, s)|] == Found(ms, s)
  }

  method CopyPart(data: array<Byte>, from: nat, part: seq<Byte>)
    requires from + |part| <= data.Length
    modifies data
    ensures data[..] == old(data[..from]) + part + old(data[from + |part|..])
  {
    for k := 0 to |part|
      invariant data[..] == old(data[..from]) + part[..k] + old(data[from + k..])
    {
      data[from + k] := part[k];
    }
  }

  /** Writing one part leaves the others alone. */
  lemma {:induction false} OtherPart(ms: seq<Marker>, before: seq<Byte>, after: seq<Byte>, s: nat, t: nat)
    requires s >= 1 && t >= 1 && Offset(ms, s) + |Found(ms, s)| <= |before|
    requires after == before[..Offset(ms, s)] + Found(ms, s) + before[Offset(ms, s) + |Found(ms, s)|..]
    requires t != s ==> InPlace(ms, before, t)
    ensures InPlace(ms, after, t)
  {
    hide Found, Offset;
    if s < t {
      PartsApart(ms, s, t);
    } else if t < s {
      PartsApart(ms, t, s);
    }
    Spliced(before, Offset(ms, s), Found(ms, s), Offset(ms, t), |Found(ms, t)|);
  }

  lemma {:induction false} Spliced(before: seq<Byte>, from: nat, part: seq<Byte>, a: nat, n: nat)
    requires from + |part| <= |before|
    ensures var after := before[..from] + part + before[from + |part|..];
            && |after| == |before| && after[from..from + |part|] == part
            && (a + n <= |before| && (a + n <= from || from + |part| <= a) ==> after[a..a + n] == before[a..a + n])
  {
  }

  lemma {:induction false} AllInPlace(ms: seq<Marker>, data: seq<Byte>, n: nat, s: nat)
    requires s <= n && forall t :: 1 <= t <= n ==> InPlace(ms, data, t)
    ensures |Assembled(ms, s)| <= |data| && data[..|Assembled(ms, s)|] == Assembled(ms, s)
  {
    if s > 0 {
      AllInPlace(ms, data, n, s - 1);
      AssembledNext(ms, s);
      assert InPlace(ms, data, s);
      hide Assembled, Found;
      var from, part := |Assembled(ms, s - 1)|, Found(ms, s);
      assert data[..from + |part|] == data[..from] + data[from..from + |part|];
    }
  }

  /** Third pass: every part into its place. */
  method FillIn(ms: seq<Marker>, n: nat, dataOffset: seq<nat>, totalLength: nat) returns (data: array<Byte>)
    requires n <= MAX_SEQ && |dataOffset| == MAX_SEQ + 1 && Numbered(ms, n) && totalLength == |Assembled(ms, n)|
    requires forall s :: 1 <= s <= n ==> Present(ms, s) && dataOffset[s] == Offset(ms, s)
    ensures fresh(data) && data[..] == Assembled(ms, n)
  {
    hide IsIcc, Present, Found, Assembled, InPlace;
    data := new Byte[totalLength](_ => 0);
    for i := 0 to |ms|
      invariant forall j :: 0 <= j < i && IccAt(ms, j) ==> InPlace(ms, data[..], SeqNo(ms[j]))
    {
      if IsIcc(ms[i]) {
        var seqNo := SeqNo(ms[i]);
        assert IccAt(ms, i);
        FoundAt(ms, n, i);
        PartInside(ms, seqNo, n);
        ghost var before := data[..];
        CopyPart(data, dataOffset[seqNo], Body(ms[i]));
        forall j | 0 <= j < i + 1 && IccAt(ms, j)
          ensures InPlace(ms, data[..], SeqNo(ms[j]))
        {
          OtherPart(ms, before, data[..], seqNo, SeqNo(ms[j]));
        }
      }
    }
    forall s | 1 <= s <= n
      ensures InPlace(ms, data[..], s)
    {
      PresentPart(ms, n, s);
    }
    AllInPlace(ms, data[..], n, n);
    assert data[..totalLength] == data[..];
  }

  /** The whole routine accepts exactly the lists that hold a profile, and returns its
      parts in the order of their numbers. */
  method ReadIccProfile(ms: seq<Marker>) returns (ok: bool, profile: seq<Byte>)
    ensures ok <==> exists n :: HoldsProfile(ms, n)
    ensures forall n :: HoldsProfile(ms, n) ==> profile == Assembled(ms, n)
  {
    hide IsIcc, Present, Found, Assembled, Numbered;
    profile := [];
    var n, markerPresent, dataLength, dataOffset, totalLength;
    ok, n, markerPresent, dataLength := CheckNumbering(ms);
    if !ok {
      return;
    }
    forall k | HoldsProfile(ms, k)
      ensures k == n
    {
      CountIsUnique(ms, n, k);
    }
    if n == 0 {
      return false, [];
    }
    ok, dataOffset, totalLength := PlaceParts(ms, n, markerPresent, dataLength);
    if !ok {
      return;
    }
    if totalLength == 0 {
      return false, [];
    }
    assert HoldsProfile(ms, n);
    var data := FillIn(ms, n, dataOffset, totalLength);
    profile := data[..];
  }

  // ----- what is written, in any order and among other markers, reads back

  function IccOnly(ms: seq<Marker>): seq<Marker> {
    if ms == [] then [] else (if IsIcc(ms[0]) then [ms[0]] else []) + IccOnly(ms[1..])
  }

  lemma {:induction false} IccOnlyHolds(ms: seq<Marker>, m: Marker)
    ensures m in IccOnly(ms) <==> IsIcc(m) && m in ms
  {
    hide IsIcc;
    if ms != [] {
      IccOnlyHolds(ms[1..], m);
    }
  }

  lemma {:induction false} TwiceInMultiset(ms: seq<Marker>, i: nat, j: nat)
    requires i < j < |ms| && ms[i] == ms[j] && IsIcc(ms[i])
    ensures multiset(IccOnly(ms))[ms[i]] >= 2
    decreases |ms|
  {
    hide IsIcc;
    var head, tail := if IsIcc(ms[0]) then [ms[0]] else [], IccOnly(ms[1..]);
    assert multiset(IccOnly(ms)) == multiset(head) + multiset(tail);
    if i == 0 {
      IccOnlyHolds(ms[1..], ms[j]);
      assert ms[1..][j - 1] == ms[j];
      assert ms[j] in multiset(tail);
    } else {
      TwiceInMultiset(ms[1..], i - 1, j - 1);
    }
  }

  lemma {:induction false} OnceInMultiset<T>(s: seq<T>, x: T)
    requires forall i, j :: 0 <= i < j < |s| ==> s[i] != s[j]
    ensures multiset(s)[x] <= 1
    decreases |s|
  {
    if s != [] {
      OnceInMultiset(s[1..], x);
      assert s == [s[0]] + s[1..];
      if s[0] == x {
        assert x !in s[1..];
      }
    }
  }

  /** The ICC markers of `ms` are those written for the profile, in any order. */
  ghost predicate Shuffled(ms: seq<Marker>, profile: seq<Byte>) {
    multiset(IccOnly(ms)) == multiset(Written(profile))
  }

  lemma {:induction false} ShuffledMembers(ms: seq<Marker>, profile: seq<Byte>, m: Marker)
    requires Shuffled(ms, profile)
    ensures IsIcc(m) && m in ms <==> m in Written(profile)
  {
    IccOnlyHolds(ms, m);
    hide IsIcc, IccOnly, Written;
    assert m in IccOnly(ms) <==> m in multiset(IccOnly(ms));
    assert m in Written(profile) <==> m in multiset(Written(profile));
  }

  /** The written marker that a saved one is. */
  lemma {:induction false} WhichPart(ms: seq<Marker>, profile: seq<Byte>, i: nat) returns (k: nat)
    requires Shuffled(ms, profile) && IccAt(ms, i)
    ensures 1 <= k <= Parts(profile) && ms[i] == Part(k, Parts(profile), Chunk(profile, k))
  {
    hide IsIcc, Part, Chunk;
    ShuffledMembers(ms, profile, ms[i]);
    var p :| 0 <= p < |Written(profile)| && Written(profile)[p] == ms[i];
    k := p + 1;
  }

  lemma {:induction false} ShuffledIsNumbered(ms: seq<Marker>, profile: seq<Byte>)
    requires Shuffled(ms, profile) && Parts(profile) <= MAX_SEQ
    ensures Numbered(ms, Parts(profile))
  {
    hide IsIcc, Part, Chunk, Written, IccOnly;
    var n := Parts(profile);
    forall i | IccAt(ms, i)
      ensures Count(ms[i]) == n && 1 <= SeqNo(ms[i]) <= n
    {
      var k := WhichPart(ms, profile, i);
    }
    forall i, j | IccAt(ms, i) && IccAt(ms, j) && i != j
      ensures SeqNo(ms[i]) != SeqNo(ms[j])
    {
      var k := WhichPart(ms, profile, i);
      var l := WhichPart(ms, profile, j);
      if k == l {
        TwiceInMultiset(ms, if i < j then i else j, if i < j then j else i);
        PartsDiffer(profile);
        OnceInMultiset(Written(profile), ms[i]);
      }
    }
  }

  lemma {:induction false} PartsDiffer(profile: seq<Byte>)
    requires Parts(profile) <= MAX_SEQ
    ensures forall i, j :: 0 <= i < j < |Written(profile)| ==> Written(profile)[i] != Written(profile)[j]
  {
    hide Part, Chunk;
    forall i, j | 0 <= i < j < |Written(profile)|
      ensures Written(profile)[i] != Written(profile)[j]
    {
      assert SeqNo(Part(i + 1, Parts(profile), Chunk(profile, i + 1))) == i + 1;
      assert SeqNo(Part(j + 1, Parts(profile), Chunk(profile, j + 1))) == j + 1;
    }
  }

  lemma {:induction false} ShuffledPart(ms: seq<Marker>, profile: seq<Byte>, s: nat)
    requires Shuffled(ms, profile) && Parts(profile) <= MAX_SEQ && 1 <= s <= Parts(profile)
    ensures Present(ms, s) && Found(ms, s) == Chunk(profile, s)
  {
    hide IsIcc, Part, Chunk, Found, IccOnly;
    ShuffledIsNumbered(ms, profile);
    var m := Part(s, Parts(profile), Chunk(profile, s));
    assert Written(profile)[s - 1] == m;
    ShuffledMembers(ms, profile, m);
    var i :| 0 <= i < |ms| && ms[i] == m;
    assert IccAt(ms, i);
    FoundAt(ms, Parts(profile), i);
  }

  lemma {:induction false} ShuffledAssembles(ms: seq<Marker>, profile: seq<Byte>, s: nat)
    requires Shuffled(ms, profile) && Parts(profile) <= MAX_SEQ && s <= Parts(profile)
    ensures Assembled(ms, s) == profile[..if s * MAX_DATA <= |profile| then s * MAX_DATA else |profile|]
  {
    hide Found, Parts, Shuffled;
    if s > 0 {
      ShuffledAssembles(ms, profile, s - 1);
      ShuffledPart(ms, profile, s);
      LastChunk(profile, s);
      var from, to := (s - 1) * MAX_DATA, if s * MAX_DATA <= |profile| then s * MAX_DATA else |profile|;
      assert profile[..from] + profile[from..to] == profile[..to];
    }
  }

  lemma {:induction false} LastChunk(profile: seq<Byte>, s: nat)
    requires 1 <= s <= Parts(profile)
    ensures (s - 1) * MAX_DATA < |profile|
  {
  }

  /** A profile that fits 255 markers comes back from any arrangement of them. */
  lemma {:induction false} ShuffledReadsBack(ms: seq<Marker>, profile: seq<Byte>)
    requires profile != [] && |profile| <= MAX_SEQ * MAX_DATA && Shuffled(ms, profile)
    ensures HoldsProfile(ms, Parts(profile)) && Assembled(ms, Parts(profile)) == profile
  {
    var n := Parts(profile);
    assert 1 <= n <= MAX_SEQ;
    ShuffledIsNumbered(ms, profile);
    hide Parts, Shuffled, Numbered, Present;
    forall s | 1 <= s <= n
      ensures Present(ms, s)
    {
      ShuffledPart(ms, profile, s);
    }
    ShuffledAssembles(ms, profile, n);
  }

  /** A longer one never does: the numbers no longer fit their bytes. */
  lemma {:induction false} LongProfileIsRejected(ms: seq<Marker>, profile: seq<Byte>, n: nat)
    requires |profile| > MAX_SEQ * MAX_DATA && Shuffled(ms, profile)
    ensures !HoldsProfile(ms, n)
  {
    hide IsIcc, Part, Chunk, IccOnly, Shuffled;
    assert Parts(profile) >= 256;
    var m := Part(256, Parts(profile), Chunk(profile, 256));
    assert Written(profile)[255] == m && IsIcc(m) && SeqNo(m) == 0;
    ShuffledMembers(ms, profile, m);
    var i :| 0 <= i < |ms| && ms[i] == m;
    assert IccAt(ms, i);
  }

  /** Both routines together: the markers written for a profile, arranged in any way,
      read back as that profile if and only if it fits 255 of them. */
  method ProfileRoundTrip(profile: seq<Byte>, ms: seq<Marker>) returns (ok: bool, result: seq<Byte>)
    requires profile != [] && Shuffled(ms, profile)
    ensures ok <==> |profile| <= MAX_SEQ * MAX_DATA
    ensures ok ==> result == profile
  {
    hide *;
    ok, result := ReadIccProfile(ms);
    if |profile| <= MAX_SEQ * MAX_DATA {
      ShuffledReadsBack(ms, profile);
    } else {
      forall n
        ensures !HoldsProfile(ms, n)
      {
        LongProfileIsRejected(ms, profile, n);
      }
    }
  }
}
