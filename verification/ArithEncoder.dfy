/** The register machine of the arithmetic encoder (sections D.1.4 to D.1.8 of
    ITU-T T.81): a 28-bit C register, a held byte, stacked 0xFF bytes that a carry
    may still turn over, and pending zero bytes that may be dropped at the end. */
module ArithEncoding {
  import opened Shifts
  import opened ByteCode
  import opened ProbabilityTable
  import opened IntervalCoder

  /** Bytes that are decided up to a carry but not yet sent. */
  function Held(zc: nat, buffer: int, sc: nat): seq<Byte>
    requires -1 <= buffer < 255
  {
    Repeat(0, zc) + (if buffer < 0 then [] else [buffer]) + Repeat(255, sc)
  }

  predicate NoTrailingZero(u: seq<Byte>) {
    u == [] || u[|u| - 1] != 0
  }

  /** The registers denote the interval `i` exactly: its base is the bytes sent so
      far followed by C. The three spacer bits bound what a later carry can do. */
  ghost predicate Denotes(i: Interval, sent: nat, length: nat, c: nat, a: nat, ct: nat)
    requires ct <= 11
  {
    && i.size == a
    && i.base == Shl(sent, 27 - ct) + c
    && i.shifts + ct == 11 + 8 * length
    && c + a <= Pow2(27 - ct) + Pow2(24 - ct)
  }

  lemma {:induction false} DenotesAfterShift(i: Interval, sent: nat, length: nat, c: nat, a: nat, ct: nat)
    requires 1 <= ct <= 11 && Denotes(i, sent, length, c, a, ct)
    ensures Denotes(Doubled(i), sent, length, 2 * c, 2 * a, ct - 1)
    ensures Pow2(27 - (ct - 1)) == 2 * Pow2(27 - ct)
  {
  }

  /** Taking the byte above bit 19 out of C and appending it to the bytes sent. */
  lemma {:induction false} DenotesAfterByte(i: Interval, sent: nat, length: nat, c: nat, a: nat)
    requires Denotes(i, sent, length, c, a, 0) && a <= 0x10000
    ensures Denotes(i, 256 * sent + c / 0x80000, length + 1, c % 0x80000, a, 8)
    ensures c / 0x80000 <= 288
    ensures a > 0 && c + a <= Pow2(27) ==> c / 0x80000 <= 255
    ensures c / 0x80000 == 255 && c + a <= Pow2(27) ==> c % 0x80000 + a <= Pow2(19)
  {
    ShlConstants(sent);
    ShlConstants(256 * sent + c / 0x80000);
    ShlConstants(1);
  }

  /** A C value inside [c, c + a), aligned with the bytes sent, denotes a code
      string inside the interval. */
  lemma {:induction false} AlignedValueInside(u: seq<Byte>, i: Interval, sent: nat, length: nat, c: nat, a: nat, ct: nat, cf: nat)
    requires ct <= 11 && Denotes(i, sent, length, c, a, ct) && c <= cf < c + a
    requires |u| == length + 2 && Shl(Value(u), 11) == Shl(sent, 27) + Shl(cf, ct)
    ensures Inside(u, i)
  {
    hide Shl, Code, Value;
    var v := Shl(Value(u), 11);
    CodeBeyondEnd(u);
    ShlShl(Value(u), 11, 5);
    var upper := i.base + i.size;
    BelowAt(u, i.base, 16 + i.shifts, length + 4);
    BelowAt(u, upper, 16 + i.shifts, length + 4);
    ShlShl(i.base, ct, 5);
    ShlShl(upper, ct, 5);
    ShlMonotone(Shl(i.base, ct), v, 5);
    ShlMonotone(Shl(upper, ct), v, 5);
    BaseAligned(sent, c, ct);
    BaseAligned(sent, c + a, ct);
    assert upper == Shl(sent, 27 - ct) + (c + a);
    ShlMonotone(c, cf, ct);
    ShlMonotone(c + a, cf, ct);
  }

  lemma {:induction false} BaseAligned(sent: nat, c: nat, ct: nat)
    requires ct <= 11
    ensures Shl(Shl(sent, 27 - ct) + c, ct) == Shl(sent, 27) + Shl(c, ct)
  {
    ShlSum(Shl(sent, 27 - ct), c, ct);
    ShlShl(sent, 27 - ct, ct);
  }

  /** The final C fits 28 bits, and 27 when C + A stayed below the carry bit. */
  lemma {:induction false} FinalRange(c: nat, a: nat, ct: nat, cf: nat)
    requires ct <= 11 && c + a <= Pow2(27 - ct) + Pow2(24 - ct) && cf < c + a
    ensures Shl(cf, ct) < 0x9000000
    ensures c + a <= Pow2(27 - ct) ==> Shl(cf, ct) < 0x8000000
  {
    hide Shl;
    ShlConstants(1);
    ShlShl(1, 27 - ct, ct);
    ShlShl(1, 24 - ct, ct);
    ShlSum(Pow2(27 - ct), Pow2(24 - ct), ct);
    ShlMonotone(Pow2(27 - ct) + Pow2(24 - ct), cf, ct);
    ShlMonotone(Pow2(27 - ct), cf, ct);
  }

  /** Its low bits are clear, so two bytes hold all of it. */
  lemma {:induction false} FinalAligned(ct: nat, q: nat)
    ensures Shl(0x8000 * q, ct) % 0x800 == 0
  {
    hide Shl;
    ShlConstants(q);
    ShlShl(q, 15, ct);
    ShlShl(q, ct, 15);
    ShlConstants(Shl(q, ct));
    LowBitsClear(Shl(0x8000 * q, ct), Shl(q, ct));
  }

  lemma {:induction false} LowBitsClear(v: nat, q: nat)
    requires v == 0x8000 * q
    ensures v % 0x800 == 0
  {
  }

  lemma {:induction false} FinalBytesValue(f: nat)
    requires f % 0x800 == 0 && f < 0x9000000
    ensures f == f / 0x8000000 * 0x8000000 + (f / 0x80000 % 256 * 256 + f / 0x800 % 256) * 0x800
  {
    var g := f / 0x800;
    assert f == g * 0x800;
    assert g == g / 65536 * 65536 + g / 256 % 256 * 256 + g % 256;
  }

  lemma {:induction false} LastBytesInside(sent: seq<Byte>, f: nat, i: Interval, total: nat, c: nat, a: nat, ct: nat, cf: nat)
    requires ct <= 11 && Denotes(i, total, |sent|, c, a, ct) && c <= cf < c + a
    requires f == Shl(cf, ct) && f % 0x800 == 0 && f < 0x9000000
    requires Value(sent) == total + f / 0x8000000
    ensures Inside(sent + [f / 0x80000 % 256] + [f / 0x800 % 256], i)
    ensures Shl(Value(sent + [f / 0x80000 % 256] + [f / 0x800 % 256]), 11) == Shl(total, 27) + f
  {
    hide Code, Value, Shl, Inside, Denotes;
    var b1, b2 := f / 0x80000 % 256, f / 0x800 % 256;
    var u := sent + [b1] + [b2];
    ValueOfByte(sent, b1);
    ValueOfByte(sent + [b1], b2);
    assert Shl(Value(u), 11) == Shl(total, 27) + f by {
      ShlConstants(Value(u));
      ShlConstants(total);
      FinalBytesValue(f);
    }
    AlignedValueInside(u, i, total, |sent|, c, a, ct, cf);
  }

  // ----- no shorter code string will do

  /** Of all numbers in [c, c + a) the one with the most trailing zero bits: one that is not
      a multiple of 2^16 only if there is no such multiple. */
  ghost predicate MostZeros(c: nat, a: nat, cf: nat) {
    && c <= cf < c + a && cf == 0x8000 * (cf / 0x8000)
    && forall q :: c <= Multiple(q) < c + a ==> Multiple(q) == cf
  }

  function Multiple(q: nat): nat {
    0x10000 * q
  }

  ghost predicate Shortest(u: seq<Byte>, i: Interval) {
    forall w :: Inside(w, i) ==> |u| <= |w|
  }

  lemma {:induction false} CodeBeyond(u: seq<Byte>, n: nat)
    ensures Code(u, |u| + n) == Shl(Value(u), 8 * n)
  {
    if n > 0 {
      CodeBeyond(u, n - 1);
      ShlByte(Value(u), 8 * (n - 1));
    }
  }

  lemma {:induction false} ShlInjective(v: nat, w: nat, n: nat)
    requires Shl(v, n) == Shl(w, n)
    ensures v == w
  {
    ShlMonotone(v, w, n);
    ShlMonotone(w, v, n);
  }

  lemma {:induction false} Rounded(c: nat, a: nat, cf: nat)
    requires 0x8000 <= a <= 0x10000
    requires var temp := (a - 1 + c) / 0x10000 * 0x10000; cf == if temp < c then temp + 0x8000 else temp
    ensures MostZeros(c, a, cf)
  {
    var t := (a - 1 + c) / 0x10000;
    assert 0x10000 * t <= a - 1 + c < 0x10000 * t + 0x10000;
    HalfMultiple(cf, if cf == 0x10000 * t then 2 * t else 2 * t + 1);
    forall q: nat | c <= Multiple(q) < c + a
      ensures Multiple(q) == cf
    {
      assert q <= t;
      assert q >= t;
    }
  }

  lemma {:induction false} HalfMultiple(v: nat, q: nat)
    requires v == 0x8000 * q
    ensures v == 0x8000 * (v / 0x8000)
  {
  }

  lemma {:induction false} LastByteLeft(u: seq<Byte>)
    requires u != [] && u[|u| - 1] != 0
    ensures Value(u) % 256 != 0
  {
    assert u == u[..|u| - 1] + [u[|u| - 1]];
    ValueOfByte(u[..|u| - 1], u[|u| - 1]);
  }

  /** A shorter code string, in units of the interval. */
  lemma {:induction false} ShorterPoint(w: seq<Byte>, i: Interval, sent: nat, length: nat, c: nat, a: nat, ct: nat) returns (y: nat)
    requires ct <= 11 && Denotes(i, sent, length, c, a, ct) && Inside(w, i) && |w| < length + 2
    ensures i.base <= y < i.base + i.size
    ensures 8 * (length + 4 - |w|) >= 5 + ct && y == Shl(Value(w), 8 * (length + 4 - |w|) - (5 + ct))
  {
    hide Shl, Code, Value;
    var k, e := length + 4, 5 + ct;
    BelowAt(w, i.base, 16 + i.shifts, k);
    BelowAt(w, i.base + i.size, 16 + i.shifts, k);
    CodeBeyond(w, k - |w|);
    y := Shl(Value(w), 8 * (k - |w|) - e);
    ShlShl(Value(w), 8 * (k - |w|) - e, e);
    ShlMonotone(i.base, y, e);
    ShlMonotone(i.base + i.size, y, e);
  }

  /** The number sent is the one chosen. */
  lemma {:induction false} SentNumber(r: nat, s: nat, sent: nat, ct: nat, cf: nat)
    requires ct <= 11 && Shl(r, 8 * s + 11) == Shl(sent, 27) + Shl(cf, ct)
    ensures Shl(sent, 27 - ct) + cf == Shl(r, 8 * s + 11 - ct)
    ensures Shl(sent, 27 - ct) == Multiple(Shl(sent, 11 - ct))
  {
    hide Shl;
    ShlConstants(Shl(sent, 11 - ct));
    ShlShl(sent, 27 - ct, ct);
    ShlSum(Shl(sent, 27 - ct), cf, ct);
    ShlShl(r, 8 * s + 11 - ct, ct);
    ShlInjective(Shl(sent, 27 - ct) + cf, Shl(r, 8 * s + 11 - ct), ct);
    ShlShl(sent, 11 - ct, 16);
  }

  /** Any shorter string would lie at a multiple of 2^16, so at the number chosen, whose last
      byte is not zero. */
  lemma {:induction false} NoShorter(w: seq<Byte>, u: seq<Byte>, s: nat, i: Interval, sent: nat, length: nat, c: nat, a: nat, ct: nat, cf: nat)
    requires ct <= 11 && Denotes(i, sent, length, c, a, ct) && MostZeros(c, a, cf)
    requires u != [] && u[|u| - 1] != 0 && |u| + s == length + 2
    requires Shl(Value(u), 8 * s + 11) == Shl(sent, 27) + Shl(cf, ct)
    requires Inside(w, i)
    ensures |u| <= |w|
  {
    hide Code, Value, Inside, Shl, MostZeros, Multiple;
    if |w| < |u| {
      var r, b := Value(u), Shl(sent, 11 - ct);
      LastByteLeft(u);
      SentNumber(r, s, sent, ct, cf);
      var y := ShorterPoint(w, i, sent, length, c, a, ct);
      var d := 8 * s + 11 - ct;
      var more := 8 * (length + 4 - |w|) - (5 + ct) - d;
      if d >= 8 {
        SameByte(Value(w), more, r, d, b, c, a, cf);
      } else {
        EighthBit(r, d, b, c, a, cf);
      }
    }
  }

  /** What is left of the bytes without trailing zeros is as short as can be. */
  lemma {:induction false} StrippedIsShortest(u: seq<Byte>, s: nat, i: Interval, sent: nat, length: nat, c: nat, a: nat, ct: nat, cf: nat)
    requires ct <= 11 && Denotes(i, sent, length, c, a, ct) && MostZeros(c, a, cf)
    requires NoTrailingZero(u) && |u| + s == length + 2
    requires Shl(Value(u + Repeat(0, s)), 11) == Shl(sent, 27) + Shl(cf, ct)
    ensures Shortest(u, i)
  {
    hide Code, Value, Inside, Shl, MostZeros, Denotes;
    ValueOfConcat(u, Repeat(0, s));
    ValueOfZeros(s);
    ShlShl(Value(u), 8 * s, 11);
    forall w | Inside(w, i)
      ensures |u| <= |w|
    {
      if u != [] {
        NoShorter(w, u, s, i, sent, length, c, a, ct, cf);
      }
    }
  }

  /** A number in the interval that ends in more than sixteen zero bits is the one chosen. */
  lemma {:induction false} SameByte(v: nat, more: nat, r: nat, d: nat, b: nat, c: nat, a: nat, cf: nat)
    requires d >= 8 && more >= 8 && Shl(r, d) == Multiple(b) + cf && MostZeros(c, a, cf)
    requires Multiple(b) + c <= Shl(v, more + d) < Multiple(b) + c + a
    ensures r % 256 == 0
  {
    hide Shl;
    var q := Shl(v, more + d - 16);
    ShlShl(v, more + d - 16, 16);
    ShlConstants(q);
    assert Multiple(q - b) == Shl(v, more + d) - Multiple(b);
    ShlShl(v, more, d);
    ShlInjective(r, Shl(v, more), d);
    ShlShl(v, more - 8, 8);
    ShlConstants(Shl(v, more - 8));
    OnlyBytes(r, Shl(v, more - 8));
  }

  lemma {:induction false} OnlyBytes(r: nat, q: nat)
    requires r == 0x100 * q
    ensures r % 256 == 0
  {
  }

  lemma {:induction false} EighthBit(r: nat, d: nat, b: nat, c: nat, a: nat, cf: nat)
    requires d < 8 && Shl(r, d) == Multiple(b) + cf && MostZeros(c, a, cf)
    ensures r % 256 == 0
  {
    hide Shl;
    var q := 2 * b + cf / 0x8000;
    assert Shl(r, d) == 0x8000 * q;
    ShlConstants(q);
    ShlShl(q, 15 - d, d);
    ShlInjective(r, Shl(q, 15 - d), d);
    ShlShl(q, 7 - d, 8);
    ShlConstants(Shl(q, 7 - d));
    OnlyBytes(r, Shl(q, 7 - d));
  }

  lemma {:induction false} StartDenotes(i: Interval, sent: nat, length: nat, c: nat, a: nat, ct: nat)
    requires i == Start && sent == 0 && length == 0 && c == 0 && a == 0x10000 && ct == 11
    ensures Denotes(i, sent, length, c, a, ct) && c + a <= Pow2(27 - ct)
  {
    ShlIsProduct(0, 16);
    ShlConstants(1);
  }

  class ArithEncoder {
    var c: nat           // base of the coding interval, layout of section D.1.3
    var a: nat           // normalised size of the coding interval
    var sc: nat          // stacked 0xFF bytes which might overflow
    var zc: nat          // pending 0x00 bytes which might be discarded
    var ct: nat          // shifts until the next byte is ready
    var buffer: int      // most recent byte != 0xFF, or -1
    var bins: Bins
    var output: seq<Byte>

    ghost var head: seq<Byte>       // output before this segment
    ghost var raw: seq<Byte>        // this segment's bytes, before stuffing
    ghost var sent: seq<Byte>       // the same with the held bytes
    ghost var start: Coder
    ghost var coder: Coder
    ghost var log: seq<Decision>

    ghost predicate Bytes()
      reads this
    {
      && -1 <= buffer < 255
      && output == head + Stuff(raw) && NoTrailingZero(raw)
      && sent == raw + Held(zc, buffer, sc)
      && (buffer == -1 ==> raw == [] && zc == 0)
    }

    ghost predicate Registers(i: Interval)
      reads this
    {
      && ct <= 11 && 0 < a <= 0x10000
      && Denotes(i, Value(sent), |sent|, c, a, ct)
      && (buffer == -1 ==> c + a <= Pow2(27 - ct))
    }

    ghost predicate Valid()
      reads this
    {
      && Bytes() && Registers(coder.interval) && a >= 0x8000 && ct >= 1
      && coder.bins == bins
      && start.interval == Start && coder == Run(start, log)
    }

    constructor (initial: Bins)
      ensures Valid() && output == [] && head == [] && log == []
      ensures start == Coder(Start, initial)
    {
      output := [];
      new;
      Reset(initial);
    }

    /** The initial registers of a segment: `base` is 0 and `spacing` is 11. */
    method Reset(initial: Bins)
      modifies this
      ensures Valid() && output == old(output) && head == output && log == []
      ensures start == Coder(Start, initial)
    {
      hide Shl, Code, Value, Stuff, Held, Denotes, Pow2, Run;
      ClearBytes();
      c, a, ct := 0, 0x10000, 11;
      bins, log := initial, [];
      start, coder := Coder(Start, initial), Coder(Start, initial);
      RunEmpty(coder);
      StartDenotes(coder.interval, Value(sent), |sent|, c, a, ct);
    }

    method ClearBytes()
      modifies `sc, `zc, `buffer, `head, `raw, `sent
      ensures Bytes() && head == output && sent == [] && Value(sent) == 0 && buffer == -1
    {
      sc, zc, buffer := 0, 0, -1;
      head, raw, sent := output, [], [];
    }

    /** The statistics are those of the decisions encoded since the segment began. */
    lemma {:induction false} StatisticsFollowLog()
      requires Valid()
      ensures Ready(start) && bins == Run(start, log).bins
    {
    }

    // ----- byte output

    method EmitStuffed(b: Byte)
      requires output == head + Stuff(raw)
      modifies `output, `raw
      ensures output == head + Stuff(raw) && raw == old(raw) + [b]
    {
      output := output + [b];
      if b == 0xFF {
        output := output + [0x00];
      }
      StuffByte(raw, b);
      raw := raw + [b];
    }

    method FlushZeros()
      requires output == head + Stuff(raw)
      modifies `output, `raw, `zc
      ensures output == head + Stuff(raw) && raw == old(raw) + Repeat(0, old(zc)) && zc == 0
    {
      while zc > 0
        invariant zc <= old(zc) && output == head + Stuff(raw)
        invariant raw == old(raw) + Repeat(0, old(zc) - zc)
      {
        EmitStuffed(0x00);
        zc := zc - 1;
      }
    }

    /** A carry arrived: the held byte goes up by one and the stacked 0xFF bytes
        behind it become zeros. */
    method Carry()
      requires Bytes() && buffer >= 0
      modifies `output, `raw, `zc, `sc
      ensures output == head + Stuff(raw) && NoTrailingZero(raw)
      ensures sc == 0 && zc == old(sc)
      ensures Value(raw + Repeat(0, zc)) == Value(sent) + 1
      ensures |raw + Repeat(0, zc)| == |sent|
    {
      ghost var before := raw + Repeat(0, zc);
      assert sent == before + [buffer] + Repeat(255, sc);
      CarryThroughOnes(before, buffer, sc);
      FlushZeros();
      EmitStuffed(buffer + 1);
      zc := zc + sc;
      sc := 0;
    }

    /** The held byte goes out, or joins the pending zeros. */
    method SendHeldByte()
      requires output == head + Stuff(raw) && NoTrailingZero(raw) && -1 <= buffer < 255
      modifies `output, `raw, `zc
      ensures output == head + Stuff(raw) && NoTrailingZero(raw)
      ensures raw + Repeat(0, zc) == old(raw + Held(zc, buffer, 0))
    {
      assert raw + Held(zc, buffer, 0) == raw + Repeat(0, zc) + (if buffer < 0 then [] else [buffer]);
      if buffer == 0 {
        zc := zc + 1;
        assert Repeat(0, zc) == Repeat(0, zc - 1) + [0];
      } else if buffer >= 0 {
        FlushZeros();
        EmitStuffed(buffer);
      }
    }

    /** The stacked 0xFF bytes go out. */
    method SendStacked()
      requires output == head + Stuff(raw) && NoTrailingZero(raw)
      modifies `output, `raw, `zc, `sc
      ensures output == head + Stuff(raw) && NoTrailingZero(raw) && sc == 0
      ensures raw + Repeat(0, zc) == old(raw + Repeat(0, zc) + Repeat(255, sc))
    {
      ghost var n := sc;
      if sc > 0 {
        FlushZeros();
        ghost var before := raw;
        while sc > 0
          invariant sc <= n && output == head + Stuff(raw) && zc == 0
          invariant raw == before + Repeat(255, n - sc)
        {
          EmitStuffed(0xFF);
          sc := sc - 1;
        }
        RepeatAt(255, n, n - 1);
      }
    }

    /** No carry can reach the held bytes any more: send them, but keep zeros back. */
    method Release()
      requires Bytes()
      modifies `output, `raw, `zc, `sc
      ensures output == head + Stuff(raw) && NoTrailingZero(raw) && sc == 0
      ensures raw + Repeat(0, zc) == sent
    {
      assert raw + Held(zc, buffer, sc) == raw + Held(zc, buffer, 0) + Repeat(255, sc);
      SendHeldByte();
      SendStacked();
    }

    /** The byte `temp` (with a carry if it exceeds 0xFF) joins the bytes sent. */
    method PushByte(temp: nat)
      requires Bytes() && temp < 0x1FF && (temp > 0xFF ==> buffer >= 0)
      modifies `output, `raw, `sent, `zc, `sc, `buffer
      ensures Bytes()
      ensures Value(sent) == 256 * old(Value(sent)) + temp && |sent| == old(|sent|) + 1
      ensures buffer == -1 <==> old(buffer) == -1 && temp == 0xFF
    {
      hide Code, Stuff;
      if temp > 0xFF {
        Carry();
        buffer := temp % 256;
        ValueOfByte(raw + Repeat(0, zc), buffer);
        sent := raw + Repeat(0, zc) + [buffer];
      } else if temp == 0xFF {
        ValueOfByte(sent, 255);
        sc := sc + 1;
        sent := sent + [255];
        assert sent == raw + Held(zc, buffer, sc);
      } else {
        Release();
        buffer := temp;
        ValueOfByte(sent, buffer);
        sent := sent + [buffer];
      }
    }

    /** Narrow the interval to the part of `val` and move the estimate. */
    method Narrowing(bin: Bin, val: Bit)
      requires Valid()
      modifies `a, `c, `bins
      ensures Registers(Chosen(coder, Decision(bin, val)))
      ensures bins == Estimate(coder, Decision(bin, val))
    {
      hide Value, Stuff, Held, Shl, AfterLps, AfterMps, Qe, Run;
      var sv := Stat(bins, bin);
      var qe := Qe(sv);
      a := a - qe;
      if val != sv.mps {
        if a >= qe {
          c := c + a;
          a := qe;
        }
        bins := bins[bin := AfterLps(sv)];
      } else {
        if a >= 0x8000 {
          return;
        }
        if a < qe {
          c := c + a;
          a := qe;
        }
        bins := bins[bin := AfterMps(sv)];
      }
    }

    /** Encode one decision; the registers refine one step of the interval coder. */
    method Encode(bin: Bin, val: Bit)
      requires Valid() && InArea(bin)
      modifies this
      ensures Valid() && head == old(head) && start == old(start)
      ensures log == old(log) + [Decision(bin, val)]
      ensures coder == Step(old(coder), Decision(bin, val))
    {
      hide Value, Stuff, Held, Shl, Run, Chosen, Estimate, Denotes;
      ghost var d := Decision(bin, val);
      RunAppend(start, log, d);
      Narrowing(bin, val);
      Renorm(Chosen(coder, d));
      coder, log := Step(coder, d), log + [d];
    }

    /** The renormalisation loop. The source leaves early when `a >= 0x8000` and
        otherwise runs the body at least once, which is this loop exactly. */
    method Renorm(ghost i0: Interval)
      requires Bytes() && Registers(i0) && ct >= 1
      modifies `a, `c, `ct, `output, `raw, `sent, `zc, `sc, `buffer
      ensures Bytes() && Registers(Renormalise(i0)) && ct >= 1 && a >= 0x8000
    {
      hide Value, Stuff, Held, Shl;
      ghost var i := i0;
      while a < 0x8000
        invariant Bytes() && Registers(i) && ct >= 1
        invariant Renormalise(i) == Renormalise(i0)
        decreases 0x8000 - a
      {
        DenotesAfterShift(i, Value(sent), |sent|, c, a, ct);
        i := Doubled(i);
        a := 2 * a;
        c := 2 * c;
        ct := ct - 1;
        if ct == 0 {
          DenotesAfterByte(i, Value(sent), |sent|, c, a);
          PushByte(c / 0x80000);
          c := c % 0x80000;
          ct := ct + 8;
        }
      }
    }

    /** Section D.1.8: pick the C value with the most trailing zero bits inside the
        final interval and send what is not a trailing zero byte. */
    method FinishPass()
      requires Valid()
      modifies `a, `c, `output, `raw, `sent, `zc, `sc
      ensures output == head + Stuff(raw) && NoTrailingZero(raw)
      ensures Ready(start) && Inside(raw, Run(start, log).interval) && Shortest(raw, Run(start, log).interval)
    {
      hide Code, Value, Stuff, Shl, Held, Inside, Run, Shortest;
      var temp := (a - 1 + c) / 0x10000 * 0x10000;
      ghost var c0, total := c, Value(sent);
      c := if temp < c then temp + 0x8000 else temp;
      ghost var cf := c;
      assert c0 <= cf < c0 + a && cf == 0x8000 * (cf / 0x8000);
      Rounded(c0, a, cf);
      FinalRange(c0, a, ct, cf);
      FinalAligned(ct, cf / 0x8000);
      c := Shl(c, ct);
      if c >= 0x8000000 {
        Carry();
      } else {
        Release();
      }
      SendFinalBytes(total, c0, cf);
    }

    method SendFinalBytes(ghost total: nat, ghost c0: nat, ghost cf: nat)
      requires output == head + Stuff(raw) && NoTrailingZero(raw)
      requires ct <= 11 && c == Shl(cf, ct) && c < 0x9000000 && c % 0x800 == 0
      requires Denotes(coder.interval, total, |raw| + zc, c0, a, ct) && c0 <= cf < c0 + a && MostZeros(c0, a, cf)
      requires Value(raw + Repeat(0, zc)) == total + c / 0x8000000
      modifies `output, `raw, `zc
      ensures output == head + Stuff(raw) && NoTrailingZero(raw)
      ensures Inside(raw, coder.interval) && Shortest(raw, coder.interval)
    {
      hide Code, Value, Stuff, Shl, Inside, Denotes, MostZeros, Shortest;
      ghost var length := |raw| + zc;
      ghost var sent := raw + Repeat(0, zc);
      var b1, b2 := c / 0x80000 % 256, c / 0x800 % 256;
      ghost var u := sent + [b1] + [b2];
      LastBytesInside(sent, c, coder.interval, total, c0, a, ct, cf);
      if c / 0x800 % 0x10000 != 0 {
        FlushZeros();
        EmitStuffed(b1);
        if b2 != 0 {
          EmitStuffed(b2);
          assert u == raw + Repeat(0, 0);
          StrippedIsShortest(raw, 0, coder.interval, total, length, c0, a, ct, cf);
        } else {
          TrailingZerosKeepInside(raw, 1, coder.interval);
          assert u == raw + Repeat(0, 1) by { assert Repeat(0, 1) == Repeat(0, 0) + [0]; }
          StrippedIsShortest(raw, 1, coder.interval, total, length, c0, a, ct, cf);
        }
      } else {
        TrailingZerosKeepInside(raw, zc + 2, coder.interval);
        assert u == raw + Repeat(0, zc + 2) by { assert Repeat(0, zc + 2) == Repeat(0, zc) + [0] + [0]; }
        StrippedIsShortest(raw, zc + 2, coder.interval, total, length, c0, a, ct, cf);
      }
    }

    /** Close the segment with a restart marker and start over with fresh statistics.
        (The fixed bin never moves, so clearing every area has the same effect as
        clearing the scan's areas.) */
    method Restart(num: nat) returns (ghost code: seq<Byte>)
      requires Valid() && num < 8
      modifies this
      ensures Valid() && output == head && log == [] && start == Coder(Start, map[])
      ensures head == old(head) + Stuff(code) + [0xFF, 0xD0 + num]
      ensures Ready(old(start)) && Inside(code, Run(old(start), old(log)).interval) && Shortest(code, Run(old(start), old(log)).interval)
    {
      hide Shortest, Inside, Run, Stuff, Held, Denotes;
      FinishPass();
      code := raw;
      output := output + [0xFF];
      output := output + [0xD0 + num];
      Reset(map[]);
    }
  }
}
