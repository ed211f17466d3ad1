/** The main results about arithmetic-coded scans: what is encoded is decoded. */
module ArithTranscoding {
  import opened Shifts
  import opened ByteCode
  import opened ProbabilityTable
  import opened IntervalCoder
  import opened Binarisation
  import opened ScanCoding
  import opened ArithEncoding
  import opened ArithDecoding
  import opened EntropyEncoding
  import opened EntropyDecoding

  /** Any adaptive decisions survive the byte stream: the decoder, asked for the same
      bins, returns the encoded bits and ends with the encoder's statistics. */
  method TranscodeDecisions(ds: seq<Decision>, initial: Bins, fill: nat, marker: Byte)
    returns (bits: seq<Bit>, encoded: Bins, decoded: Bins)
    requires forall i :: 0 <= i < |ds| ==> InArea(ds[i].bin)
    requires 0 < marker < 255
    ensures |bits| == |ds| && forall i :: 0 <= i < |ds| ==> bits[i] == ds[i].bit
    ensures decoded == encoded
  {
    hide ArithEncoder.Valid, ArithDecoder.Valid, Inside, Run, Step, Stuff, Marker;
    var enc := new ArithEncoder(initial);
    for i := 0 to |ds|
      invariant fresh(enc) && enc.Valid() && enc.head == [] && enc.log == ds[..i]
      invariant enc.start == Coder(Start, initial)
    {
      enc.Encode(ds[i].bin, ds[i].bit);
    }
    assert ds[..|ds|] == ds;
    encoded := enc.bins;
    enc.StatisticsFollowLog();
    enc.FinishPass();
    var input := enc.output + Marker(fill, marker);
    assert input == Stuff(enc.raw) + Marker(fill, marker) + [];
    var dec := new ArithDecoder(input, initial, enc.raw, fill, marker, [], ds);
    bits := [];
    for i := 0 to |ds|
      invariant fresh(dec) && dec.Valid() && dec.future == ds[i..]
      invariant |bits| == i && forall j :: 0 <= j < i ==> bits[j] == ds[j].bit
      invariant Ready(dec.coder) && Run(dec.coder, ds[i..]) == Run(Coder(Start, initial), ds)
    {
      RunFirst(dec.coder, ds[i..]);
      assert ds[i..][1..] == ds[i + 1..];
      var bit := dec.Decode(ds[i].bin);
      bits := bits + [bit];
    }
    decoded := dec.bins;
    dec.StatisticsFollowCoder();
    RunEmpty(dec.coder);
  }

  /** No magnitude overflows: in every restart interval each DC difference is at most
      32768 in absolute value. */
  predicate ScanSmooth(scan: Scan, mcus: seq<Mcu>)
    requires ValidScan(scan) && ValidMcus(scan, mcus)
  {
    ValidInitialState(scan);
    forall i :: 0 <= i < Intervals(scan, |mcus|) ==> ChunkSmooth(scan, mcus, i)
  }

  predicate ChunkSmooth(scan: Scan, mcus: seq<Mcu>, i: nat)
    requires ValidScan(scan) && ValidMcus(scan, mcus)
  {
    ValidInitialState(scan);
    var chunk := Chunk(scan, mcus, |mcus|, i);
    ValidMcus(scan, chunk) && IntervalSmooth(scan, InitialState(scan), chunk)
  }

  /** Encode a scan and close it with a marker. */
  method EncodeScan(scan: Scan, mcus: seq<Mcu>, end: End) returns (input: seq<Byte>, ghost codes: seq<seq<Byte>>)
    requires ValidScan(scan) && ValidMcus(scan, mcus)
    ensures codes != [] && input == From(codes, 0, end)
    ensures EncodesAll(scan, mcus, codes)
  {
    hide ArithEncoder.Valid, EntropyEncoder.Counting, EntropyEncoder.Tracking, Encodes, Chunk, Joined, Stuff, From, InitialState, Marker;
    var enc := new EntropyEncoder(scan);
    for m := 0 to |mcus|
      invariant fresh(enc) && fresh(enc.enc) && enc.Valid() && enc.scan == scan && enc.mcus == mcus[..m]
    {
      enc.EncodeMcu(mcus[m]);
    }
    assert mcus[..|mcus|] == mcus;
    codes := enc.FinishPass();
    input := enc.enc.output + Marker(end.fill, end.marker) + end.tail;
    ClosedSegments(codes, end);
  }

  lemma {:induction false} ClosedSegments(codes: seq<seq<Byte>>, end: End)
    requires codes != []
    ensures Joined(codes[..|codes| - 1]) + Stuff(codes[|codes| - 1]) + Marker(end.fill, end.marker) + end.tail
         == From(codes, 0, end)
  {
    hide Joined, Stuff, Marker;
    var d := |codes| - 1;
    JoinedIsFrom(codes, d, end);
    var x, y, z, w := Joined(codes[..d]), Stuff(codes[d]), Marker(end.fill, end.marker), end.tail;
    assert From(codes, d, end) == y + z + w;
    assert x + y + z + w == x + (y + z + w);
  }

  /** The prior image holds what earlier scans established about `mcus`. */
  predicate PriorScanKnown(scan: Scan, mcus: seq<Mcu>, prior: seq<Mcu>)
    requires ValidMcus(scan, mcus) && ValidMcus(scan, prior) && |mcus| == |prior|
  {
    forall m, b :: 0 <= m < |mcus| && 0 <= b < |mcus[m]| ==> PriorKnown(scan, mcus[m][b], prior[m][b])
  }

  predicate ScanUpdated(scan: Scan, mcus: seq<Mcu>, prior: seq<Mcu>, decoded: seq<Mcu>) {
    && |decoded| == |prior| == |mcus|
    && forall m :: 0 <= m < |mcus| ==> McuUpdated(scan, mcus[m], prior[m], decoded[m])
  }

  predicate McuUpdated(scan: Scan, mcu: Mcu, prior: Mcu, decoded: Mcu) {
    && |mcu| == |prior| == |decoded|
    && forall b :: 0 <= b < |mcu| ==> Updated(scan, mcu[b], prior[b], decoded[b])
  }

  lemma {:induction false} EnoughIntervals(scan: Scan, n: nat, m: nat)
    requires scan.restartInterval > 0 && m < n
    ensures m < Intervals(scan, n) * scan.restartInterval
  {
    var r := scan.restartInterval;
    QuotientBounds(n - 1, r);
    assert ((n - 1) / r + 1) * r == (n - 1) / r * r + r;
  }

  /** Decode a scan of known MCUs. No magnitude overflow is reported exactly when every
      segment is smooth, and then every block holds what the scan conveys. */
  method DecodeScan(scan: Scan, input: seq<Byte>, prior: seq<Mcu>, ghost mcus: seq<Mcu>, ghost codes: seq<seq<Byte>>, ghost end: End)
    returns (ok: bool, decoded: seq<Mcu>)
    requires codes != [] && input == From(codes, 0, end) && 0 < end.marker < 255
    requires EncodesAll(scan, mcus, codes)
    requires ValidMcus(scan, prior) && |prior| == |mcus| && PriorScanKnown(scan, mcus, prior)
    ensures ok <==> ScanSmooth(scan, mcus)
    ensures ok ==> ScanUpdated(scan, mcus, prior, decoded)
  {
    hide ArithDecoder.Valid, Encodes, Chunk, From, Behind, PriorKnown, Updated, IntervalFrom, IntervalSmooth, Mirrors, Intervals;
    var dec := new EntropyDecoder(scan, input, codes, end, mcus);
    decoded, ok := [], true;
    for m := 0 to |prior|
      invariant fresh(dec) && fresh(dec.dec) && dec.Valid() && dec.scan == scan && dec.done == m
      invariant dec.codes == codes && dec.end == end && dec.target == mcus
      invariant |decoded| == m
      invariant ok ==> !dec.failed && (forall i :: 0 <= i < dec.d ==> ChunkSmooth(scan, mcus, i))
                       && forall j :: 0 <= j < m ==> McuUpdated(scan, mcus[j], prior[j], decoded[j])
      invariant !ok ==> exists i :: 0 <= i < |codes| && !ChunkSmooth(scan, mcus, i)
    {
      if scan.restartInterval > 0 {
        EnoughIntervals(scan, |mcus|, m);
      }
      ghost var d := dec.d;
      var mcu := dec.DecodeMcu(prior[m]);
      decoded := decoded + [mcu];
      if dec.failed {
        ok := false;
        assert !ChunkSmooth(scan, mcus, dec.d);
      }
    }
    dec.SegmentFinished();
  }

  /** A scan from encoder to decoder, over what the decoder already holds. */
  method TranscodeScan(scan: Scan, mcus: seq<Mcu>, prior: seq<Mcu>, end: End) returns (ok: bool, decoded: seq<Mcu>)
    requires ValidScan(scan) && ValidMcus(scan, mcus) && 0 < end.marker < 255
    requires ValidMcus(scan, prior) && |prior| == |mcus| && PriorScanKnown(scan, mcus, prior)
    ensures ok <==> ScanSmooth(scan, mcus)
    ensures ok ==> ScanUpdated(scan, mcus, prior, decoded)
  {
    hide *;
    ghost var codes;
    var input;
    input, codes := EncodeScan(scan, mcus, end);
    ok, decoded := DecodeScan(scan, input, prior, mcus, codes, end);
  }

  /** The overflow is real: two blocks with the extreme DC values, one after the other, are
      encoded and then refused by the decoder. */
  lemma {:induction false} ExtremesOverflow(scan: Scan, mcus: seq<Mcu>)
    requires |scan.comps| == 1 && scan == Scan(scan.comps, [0], false, 0, 63, 0, 0, 0)
    requires |mcus| == 2 && |mcus[0]| == 1 && |mcus[1]| == 1 && mcus[0][0][0] == -32768 && mcus[1][0][0] == 32767
    ensures ValidScan(scan) && ValidMcus(scan, mcus) && !ScanSmooth(scan, mcus)
  {
    ValidInitialState(scan);
    var st := InitialState(scan);
    assert Pow2(scan.al) == 1;
    assert PointDc(mcus[0][0][0], scan.al) == -32768 && PointDc(mcus[1][0][0], scan.al) == 32767;
    hide PointDc, DcContext, Pow2;
    var next := NextState(scan, st, 0, mcus[0][0]);
    assert next.last[0] == -32768;
    assert McuState(scan, next, mcus[0], 1) == next;
    assert McuState(scan, st, mcus[0], 0) == next;
    assert !Smooth(scan, next, 0, mcus[1][0]);
    assert !McuSmooth(scan, next, mcus[1], 0);
    assert mcus[1..][0] == mcus[1];
    assert !IntervalSmooth(scan, next, mcus[1..]);
    assert !IntervalSmooth(scan, st, mcus);
    assert Chunk(scan, mcus, |mcus|, 0) == mcus;
    assert !ChunkSmooth(scan, mcus, 0);
  }
}
