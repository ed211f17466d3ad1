/** The binary arithmetic coder in unbounded precision: the specification that
    both register machines refine. A code string is a binary fraction; coding a
    decision narrows an interval, and any code string inside the final interval
    determines every decision. */
module IntervalCoder {
  import opened Shifts
  import opened ByteCode
  import opened ProbabilityTable

  /** The interval [base, base + size) in units of 2^-(16 + shifts). */
  datatype Interval = Interval(base: nat, size: nat, shifts: nat)

  const Start := Interval(0, 0x10000, 0)

  /** The code point of `u` lies below `m / 2^n`. */
  ghost predicate Below(u: seq<Byte>, m: nat, n: nat) {
    Code(u, (n + 7) / 8) < Shl(m, 8 * ((n + 7) / 8) - n)
  }

  ghost predicate Inside(u: seq<Byte>, i: Interval) {
    !Below(u, i.base, 16 + i.shifts) && Below(u, i.base + i.size, 16 + i.shifts)
  }

  function Doubled(i: Interval): Interval {
    Interval(2 * i.base, 2 * i.size, i.shifts + 1)
  }

  /** Any sufficiently long prefix of the code string decides `Below`. */
  lemma {:induction false} BelowAt(u: seq<Byte>, m: nat, n: nat, k: nat)
    requires 8 * k >= n
    ensures Below(u, m, n) <==> Code(u, k) < Shl(m, 8 * k - n)
  {
    if k > (n + 7) / 8 {
      BelowAt(u, m, n, k - 1);
      ShlByte(m, 8 * (k - 1) - n);
    }
  }

  lemma {:induction false} BelowDoubled(u: seq<Byte>, m: nat, n: nat)
    ensures Below(u, 2 * m, n + 1) <==> Below(u, m, n)
  {
    BelowAt(u, 2 * m, n + 1, n + 1);
    BelowAt(u, m, n, n + 1);
    ShlShl(m, 1, 8 * (n + 1) - (n + 1));
    assert Shl(m, 1) == 2 * m;
  }

  lemma {:induction false} BelowMonotone(u: seq<Byte>, m: nat, m': nat, n: nat)
    requires m <= m' && Below(u, m, n)
    ensures Below(u, m', n)
  {
    ShlMonotone(m, m', 8 * ((n + 7) / 8) - n);
  }

  /** Every byte string is the code of some decisions: all lie in the first interval. */
  lemma {:induction false} StartHoldsEveryCode(u: seq<Byte>)
    ensures Inside(u, Start)
  {
    assert Code(u, 2) == 256 * Code(u, 1) + (if 2 <= |u| then u[1] else 0);
    assert Code(u, 1) <= 255;
    ShlConstants(0);
    ShlConstants(0x10000);
    assert Shl(0x10000, 0) == 0x10000;
  }

  lemma {:induction false} TrailingZerosKeepInside(u: seq<Byte>, n: nat, i: Interval)
    ensures Inside(u + Repeat(0, n), i) <==> Inside(u, i)
  {
    CodeIgnoresTrailingZeros(u, n, (16 + i.shifts + 7) / 8);
  }

  // ----- narrowing and renormalisation

  /** The low part codes one symbol, the high part of size `qe` the other. */
  function Narrow(i: Interval, qe: nat, high: bool): Interval
    requires qe <= i.size
  {
    if high then Interval(i.base + (i.size - qe), qe, i.shifts)
    else Interval(i.base, i.size - qe, i.shifts)
  }

  function Renormalise(i: Interval): (r: Interval)
    requires i.size > 0
    ensures r.size >= 0x8000
    decreases 0x8000 - i.size
  {
    if i.size >= 0x8000 then i
    else Renormalise(Doubled(i))
  }

  lemma {:induction false} NarrowSplits(u: seq<Byte>, i: Interval, qe: nat)
    requires qe <= i.size
    ensures Inside(u, i) <==> Inside(u, Narrow(i, qe, false)) || Inside(u, Narrow(i, qe, true))
    ensures !(Inside(u, Narrow(i, qe, false)) && Inside(u, Narrow(i, qe, true)))
  {
    var cut, n := i.base + (i.size - qe), 16 + i.shifts;
    if Below(u, i.base, n) { BelowMonotone(u, i.base, cut, n); }
    if Below(u, cut, n) { BelowMonotone(u, cut, i.base + i.size, n); }
  }

  lemma {:induction false} RenormaliseKeepsInside(u: seq<Byte>, i: Interval)
    requires i.size > 0
    ensures Inside(u, Renormalise(i)) <==> Inside(u, i)
    decreases 0x8000 - i.size
  {
    hide Code, Shl;
    if i.size < 0x8000 {
      BelowDoubled(u, i.base, 16 + i.shifts);
      BelowDoubled(u, i.base + i.size, 16 + i.shifts);
      assert 2 * (i.base + i.size) == 2 * i.base + 2 * i.size;
      RenormaliseKeepsInside(u, Doubled(i));
    }
  }

  // ----- adaptive coding of decisions

  /** A statistics bin: an offset into the DC or AC area of a conditioning table,
      or the bin with fixed probability 0.5. */
  datatype Bin = Dc(tbl: nat, offset: nat) | Ac(tbl: nat, offset: nat) | Fixed

  /** The allocated statistics areas: DC_STAT_BINS and AC_STAT_BINS. */
  predicate InArea(bin: Bin) {
    match bin
    case Dc(_, offset) => offset < 64
    case Ac(_, offset) => offset < 256
    case Fixed => true
  }

  datatype Decision = Decision(bin: Bin, bit: Bit)

  type Bins = map<Bin, StatBin>

  /** Statistics areas start zeroed; the fixed bin starts at table entry 113. */
  function Stat(bins: Bins, bin: Bin): StatBin {
    if bin in bins then bins[bin] else StatBin(if bin.Fixed? then 113 else 0, 0)
  }

  datatype Coder = Coder(interval: Interval, bins: Bins)

  ghost predicate Ready(c: Coder) {
    c.interval.size >= 0x8000
  }

  /** Conditional exchange: the less probable symbol takes the larger part. */
  function TakesHigh(size: nat, sv: StatBin, bit: Bit): bool
    requires size >= 0x8000
  {
    (bit != sv.mps) == (size - Qe(sv) >= Qe(sv))
  }

  /** The estimate moves only when the interval needs renormalising. */
  function Estimate(c: Coder, d: Decision): Bins
    requires c.interval.size >= 0x8000
  {
    var sv := Stat(c.bins, d.bin);
    if d.bit != sv.mps then c.bins[d.bin := AfterLps(sv)]
    else if c.interval.size - Qe(sv) >= 0x8000 then c.bins
    else c.bins[d.bin := AfterMps(sv)]
  }

  /** The subinterval of a decision, before renormalisation. */
  function Chosen(c: Coder, d: Decision): (i: Interval)
    requires c.interval.size >= 0x8000
    ensures i.size > 0
  {
    var sv := Stat(c.bins, d.bin);
    Narrow(c.interval, Qe(sv), TakesHigh(c.interval.size, sv, d.bit))
  }

  function Step(c: Coder, d: Decision): (r: Coder)
    requires c.interval.size >= 0x8000
    ensures r.interval.size >= 0x8000
  {
    Coder(Renormalise(Chosen(c, d)), Estimate(c, d))
  }

  /** The less probable symbol never gets the larger part, and what it gets needs
      renormalising; where the parts are not exchanged, the other symbol lies below. */
  lemma {:induction false} LpsGetsLess(c: Coder, bin: Bin)
    requires Ready(c) && c.interval.size <= 0x10000
    ensures var sv := Stat(c.bins, bin);
            var lps, mps := Chosen(c, Decision(bin, 1 - sv.mps)), Chosen(c, Decision(bin, sv.mps));
            && lps.size <= mps.size && lps.size + mps.size == c.interval.size && lps.size < 0x8000
            && (lps.size == Qe(sv) ==> mps.base == c.interval.base && lps.base == c.interval.base + mps.size)
            && (lps.size != Qe(sv) ==> lps.base == c.interval.base && mps.base == c.interval.base + lps.size && mps.size == Qe(sv))
  {
  }

  /** The estimate of the decision's bin moves if the interval is renormalised, and none
      otherwise. */
  lemma {:induction false} EstimateMoves(c: Coder, d: Decision)
    requires Ready(c) && c.interval.size <= 0x10000
    ensures var sv, next := Stat(c.bins, d.bin), Step(c, d);
            && (next.interval.shifts == c.interval.shifts ==> next.bins == c.bins && d.bit == sv.mps)
            && (next.interval.shifts != c.interval.shifts ==>
                  next.bins == c.bins[d.bin := if d.bit == sv.mps then AfterMps(sv) else AfterLps(sv)])
  {
    LpsGetsLess(c, d.bin);
    ShiftsGrow(Chosen(c, d));
    hide Renormalise;
  }

  lemma {:induction false} ShiftsGrow(i: Interval)
    requires i.size > 0
    ensures Renormalise(i).shifts >= i.shifts && (Renormalise(i).shifts == i.shifts <==> i.size >= 0x8000)
    decreases 0x8000 - i.size
  {
    if i.size < 0x8000 {
      ShiftsGrow(Doubled(i));
    }
  }

  /** Sizes fit the 17 bits of the register. */
  lemma {:induction false} RunFits(c: Coder, ds: seq<Decision>)
    requires Ready(c) && c.interval.size <= 0x10000
    ensures Run(c, ds).interval.size <= 0x10000
    decreases |ds|
  {
    if ds != [] {
      hide Renormalise;
      RenormalisedFits(Chosen(c, ds[0]));
      RunFits(Step(c, ds[0]), ds[1..]);
    }
  }

  lemma {:induction false} RenormalisedFits(i: Interval)
    requires 0 < i.size <= 0x10000
    ensures Renormalise(i).size <= 0x10000
    decreases 0x8000 - i.size
  {
    if i.size < 0x8000 {
      RenormalisedFits(Doubled(i));
    }
  }

  /** The first two zeros of a fresh bin: the second leaves too small an interval, so that a
      third would be coded with the second estimate. */
  lemma {:induction false} ThirdZeroIsCheaper(bin: Bin)
    requires !bin.Fixed?
    ensures var c := Run(Coder(Start, map[]), [Decision(bin, 0), Decision(bin, 0)]);
            Qe(Stat(c.bins, bin)) == 0x2586 && c.interval.size == 2 * 0x5A1D
  {
    var d := Decision(bin, 0);
    var c0 := Coder(Start, map[]);
    RunFirst(c0, [d, d]);
    RunFirst(Step(c0, d), [d]);
    RunEmpty(Step(Step(c0, d), d));
  }

  function Run(c: Coder, ds: seq<Decision>): (r: Coder)
    requires c.interval.size >= 0x8000
    ensures r.interval.size >= 0x8000
    decreases |ds|
  {
    if ds == [] then c else Run(Step(c, ds[0]), ds[1..])
  }

  lemma {:induction false} RunConcat(c: Coder, ds: seq<Decision>, es: seq<Decision>)
    requires Ready(c)
    ensures Run(c, ds + es) == Run(Run(c, ds), es)
    decreases |ds|
  {
    if ds == [] {
      assert ds + es == es;
    } else {
      assert (ds + es)[1..] == ds[1..] + es;
      RunConcat(Step(c, ds[0]), ds[1..], es);
    }
  }

  lemma {:induction false} RunEmpty(c: Coder)
    requires Ready(c)
    ensures Run(c, []) == c
  {
  }

  lemma {:induction false} RunFirst(c: Coder, ds: seq<Decision>)
    requires Ready(c) && ds != []
    ensures Run(c, ds) == Run(Step(c, ds[0]), ds[1..])
  {
  }

  lemma {:induction false} RunAppend(c: Coder, ds: seq<Decision>, d: Decision)
    requires Ready(c)
    ensures Run(c, ds + [d]) == Step(Run(c, ds), d)
  {
    RunConcat(c, ds, [d]);
    assert Run(Run(c, ds), [d]) == Run(Step(Run(c, ds), d), []);
  }

  /** Every step codes exactly one of its two outcomes. */
  lemma {:induction false} StepDecides(u: seq<Byte>, c: Coder, bin: Bin)
    requires Ready(c)
    ensures Inside(u, c.interval) <==>
            Inside(u, Step(c, Decision(bin, 0)).interval) || Inside(u, Step(c, Decision(bin, 1)).interval)
    ensures !(Inside(u, Step(c, Decision(bin, 0)).interval) && Inside(u, Step(c, Decision(bin, 1)).interval))
  {
    var qe := Qe(Stat(c.bins, bin));
    NarrowSplits(u, c.interval, qe);
    RenormaliseKeepsInside(u, Narrow(c.interval, qe, false));
    RenormaliseKeepsInside(u, Narrow(c.interval, qe, true));
  }

  /** Intervals are nested: a code string inside the final interval was inside
      every earlier one. */
  lemma {:induction false} RunNests(u: seq<Byte>, c: Coder, ds: seq<Decision>)
    requires Ready(c) && Inside(u, Run(c, ds).interval)
    ensures Inside(u, c.interval)
    decreases |ds|
  {
    if ds != [] {
      RunNests(u, Step(c, ds[0]), ds[1..]);
      StepDecides(u, c, ds[0].bin);
    }
  }

  /** Unique decodability: a code string inside the final interval forces the next
      decision, so a decoder that asks for the same bin must answer the same bit. */
  lemma {:induction false} NextDecisionForced(u: seq<Byte>, c: Coder, ds: seq<Decision>, bit: Bit)
    requires Ready(c) && ds != [] && Inside(u, Run(c, ds).interval)
    requires Inside(u, Step(c, Decision(ds[0].bin, bit)).interval)
    ensures bit == ds[0].bit
  {
    RunNests(u, Step(c, ds[0]), ds[1..]);
    StepDecides(u, c, ds[0].bin);
  }

  /** Whole-sequence form: two decision sequences that ask for bins by the same
      rule and share a code string are equal. */
  lemma {:induction false} CodeStringDeterminesDecisions(u: seq<Byte>, c: Coder, ds: seq<Decision>, es: seq<Decision>)
    requires Ready(c) && |ds| == |es|
    requires forall i :: 0 <= i < |ds| && ds[..i] == es[..i] ==> ds[i].bin == es[i].bin
    requires Inside(u, Run(c, ds).interval) && Inside(u, Run(c, es).interval)
    ensures ds == es
    decreases |ds|
  {
    if ds != [] {
      assert ds[..0] == es[..0];
      RunNests(u, Step(c, es[0]), es[1..]);
      NextDecisionForced(u, c, ds, es[0].bit);
      forall i | 0 <= i < |ds| - 1 && ds[1..][..i] == es[1..][..i]
        ensures ds[1..][i].bin == es[1..][i].bin
      {
        assert ds[..i + 1] == [ds[0]] + ds[1..][..i];
        assert es[..i + 1] == [es[0]] + es[1..][..i];
      }
      CodeStringDeterminesDecisions(u, Step(c, ds[0]), ds[1..], es[1..]);
    }
  }
}
