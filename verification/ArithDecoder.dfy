/** The register machine of the arithmetic decoder (sections D.2.4 to D.2.6 of
    ITU-T T.81). It renormalises at the start of a decision instead of the end, and
    keeps the code base and the unread bits in one register with a floating cut. */
module ArithDecoding {
  import opened Shifts
  import opened ByteCode
  import opened ProbabilityTable
  import opened IntervalCoder

  /** The registers hold the distance from the interval base to the code point,
      to `ct` more bits than the interval has. */
  ghost predicate Reads(code: seq<Byte>, fetched: nat, i: Interval, c: nat, a: nat, ct: int) {
    && 0 <= ct <= 7
    && i.size == a
    && 8 * fetched == 16 + i.shifts + ct
    && c + Shl(i.base, ct) == Code(code, fetched)
  }

  lemma {:induction false} ReadsAfterShift(code: seq<Byte>, fetched: nat, i: Interval, c: nat, a: nat, ct: int)
    requires Reads(code, fetched, i, c, a, ct) && ct >= 1
    ensures Reads(code, fetched, Doubled(i), c, 2 * a, ct - 1)
  {
    ShlShl(i.base, 1, ct - 1);
    assert Shl(i.base, 1) == 2 * i.base;
  }

  lemma {:induction false} ReadsAfterFetch(code: seq<Byte>, fetched: nat, i: Interval, c: nat, a: nat, data: Byte)
    requires Reads(code, fetched, i, c, a, 0)
    requires data == if fetched < |code| then code[fetched] else 0
    ensures Reads(code, fetched + 1, Doubled(i), 256 * c + data, 2 * a, 7)
  {
    ShlShl(i.base, 1, 7);
    ShlConstants(i.base);
    assert Shl(i.base, 1) == 2 * i.base;
  }

  /** Comparing C with the shifted size decides which part holds the code point. */
  lemma {:induction false} CompareDecides(code: seq<Byte>, fetched: nat, i: Interval, c: nat, a: nat, ct: int, qe: nat)
    requires Reads(code, fetched, i, c, a, ct) && 0 < qe < a && Inside(code, i)
    ensures var high := c >= Shl(a - qe, ct);
            && Inside(code, Narrow(i, qe, high))
            && Reads(code, fetched, Narrow(i, qe, high), if high then c - Shl(a - qe, ct) else c, if high then qe else a - qe, ct)
  {
    hide Code, Shl;
    var cut := i.base + (i.size - qe);
    BelowAt(code, cut, 16 + i.shifts, fetched);
    ShlSum(i.base, a - qe, ct);
    NarrowSplits(code, i, qe);
  }

  /** A marker: 0xFF, optionally repeated, and a code that is neither 0x00 nor 0xFF. */
  function Marker(fill: nat, marker: Byte): seq<Byte> {
    [255] + Repeat(255, fill) + [marker]
  }

  lemma {:induction false} SegmentFirst(code: seq<Byte>, fetched: nat)
    requires fetched <= |code|
    ensures var s := code[fetched..];
            && (s == [] <==> fetched == |code|)
            && (s == [] ==> Stuff(s) == [])
            && (s != [] ==> s[0] == code[fetched] && s[1..] == code[fetched + 1..]
                            && Stuff(s) == (if s[0] == 255 then [255, 0] else [s[0]]) + Stuff(s[1..]))
  {
  }

  lemma {:induction false} StartsReady(initial: Bins)
    ensures Renormalise(Start) == Start && Start.size > 0 && Ready(Coder(Start, initial))
  {
  }

  class ArithDecoder {
    const input: seq<Byte>
    var next: nat          // position of the next input byte
    var unreadMarker: int  // nonzero once a marker has been hit
    var c: nat             // code base and unread bits
    var a: nat             // normalised size of the coding interval
    var ct: int            // unread bits in C; -16 before the first byte
    var bins: Bins

    ghost var code: seq<Byte>      // the segment without its stuffing
    ghost var fill: nat            // optional fill bytes before the marker
    ghost var marker: Byte         // the marker that ends it
    ghost var rest: seq<Byte>      // what follows the marker
    ghost var fetched: nat         // bytes of the zero-extended segment read
    ghost var lag: Interval        // the interval before renormalisation
    ghost var coder: Coder
    ghost var future: seq<Decision>

    ghost predicate Feeds()
      reads this
    {
      && 0 < marker < 255 && next <= |input|
      && (unreadMarker == 0 ==>
            fetched <= |code| && input[next..] == Stuff(code[fetched..]) + Marker(fill, marker) + rest)
      && (unreadMarker != 0 ==>
            unreadMarker == marker && fetched >= |code| && input[next..] == rest)
    }

    /** Before the first decision no byte has been read. */
    ghost predicate Filling()
      reads this
    {
      ct == -16 && a == 0 && c == 0 && fetched == 0 && lag == Start
    }

    ghost predicate Valid()
      reads this
    {
      && Feeds()
      && (Filling() || (0 < a <= 0x10000 && Reads(code, fetched, lag, c, a, ct)))
      && lag.size > 0 && Ready(coder) && coder.interval == Renormalise(lag) && coder.bins == bins
      && Inside(code, lag)
      && Inside(code, Run(coder, future).interval)
    }

    /** A decoder may be started on any segment; `future` names decisions that its
        code string is known to encode, and may be empty. */
    constructor (input: seq<Byte>, initial: Bins, ghost code: seq<Byte>, ghost fill: nat, ghost marker: Byte,
                 ghost rest: seq<Byte>, ghost future: seq<Decision>)
      requires 0 < marker < 255 && input == Stuff(code) + Marker(fill, marker) + rest
      requires Inside(code, Run(Coder(Start, initial), future).interval)
      ensures Valid()
      ensures this.code == code && this.fill == fill && this.marker == marker && this.rest == rest
      ensures coder == Coder(Start, initial) && this.future == future
    {
      this.input := input;
      next := 0;
      new;
      Begin(initial, code, fill, marker, rest, future);
    }

    /** The registers before the first decision of a segment that starts at `next`. */
    method Begin(initial: Bins, ghost code: seq<Byte>, ghost fill: nat, ghost marker: Byte,
                 ghost rest: seq<Byte>, ghost future: seq<Decision>)
      requires 0 < marker < 255 && next <= |input| && input[next..] == Stuff(code) + Marker(fill, marker) + rest
      requires Inside(code, Run(Coder(Start, initial), future).interval)
      modifies this
      ensures Valid()
      ensures this.code == code && this.fill == fill && this.marker == marker && this.rest == rest
      ensures coder == Coder(Start, initial) && this.future == future
    {
      hide Feeds, Stuff, Code, Run, Marker, Inside, Renormalise, Reads, Ready;
      bins, coder, this.future := initial, Coder(Start, initial), future;
      ClearRegisters(code, fill, marker, rest);
      StartsReady(initial);
      StartHoldsEveryCode(code);
    }

    method ClearRegisters(ghost code: seq<Byte>, ghost fill: nat, ghost marker: Byte, ghost rest: seq<Byte>)
      requires 0 < marker < 255 && next <= |input| && input[next..] == Stuff(code) + Marker(fill, marker) + rest
      modifies `unreadMarker, `c, `a, `ct, `code, `fill, `marker, `rest, `fetched, `lag
      ensures Feeds() && Filling()
      ensures this.code == code && this.fill == fill && this.marker == marker && this.rest == rest
    {
      hide Stuff, Marker;
      unreadMarker, c, a, ct, fetched, lag := 0, 0, 0, -16, 0, Start;
      this.code, this.fill, this.marker, this.rest := code, fill, marker, rest;
      assert code[0..] == code;
    }

    lemma {:induction false} StatisticsFollowCoder()
      requires Valid()
      ensures Ready(coder) && bins == coder.bins
    {
    }

    /** Read one byte of the segment: undo the stuffing, and supply zeros from the
        marker on. */
    method FetchByte() returns (data: Byte)
      requires Feeds()
      modifies `next, `unreadMarker, `fetched
      ensures Feeds() && fetched == old(fetched) + 1
      ensures data == if old(fetched) < |code| then code[old(fetched)] else 0
    {
      hide Stuff, Repeat;
      if unreadMarker != 0 {
        data := 0;
      } else {
        ghost var segment := code[fetched..];
        SegmentFirst(code, fetched);
        assert input[next] == input[next..][0];
        data := input[next];
        next := next + 1;
        assert input[next..] == input[next - 1..][1..];
        if data == 0xFF {
          data := AfterFF(segment);
          if data == 0 {
            data := 0xFF;
          } else {
            unreadMarker := data;
            data := 0;
          }
        }
      }
      fetched := fetched + 1;
    }

    /** The first byte behind a 0xFF that is not 0xFF itself: zero inside the
        segment, the marker code at its end. */
    method AfterFF(ghost segment: seq<Byte>) returns (data: Byte)
      requires next <= |input| && 0 < marker < 255
      requires if segment == [] then input[next..] == Repeat(255, fill) + [marker] + rest
               else segment[0] == 255 && input[next..] == [0] + Stuff(segment[1..]) + Marker(fill, marker) + rest
      modifies `next
      ensures old(next) <= next <= |input|
      ensures if segment == [] then data == marker && input[next..] == rest
              else data == 0 && input[next..] == Stuff(segment[1..]) + Marker(fill, marker) + rest
    {
      hide Stuff, Marker;
      ghost var tail := if segment == [] then [] else Stuff(segment[1..]) + Marker(fill, marker) + rest;
      assert segment != [] ==> [0] + Stuff(segment[1..]) + Marker(fill, marker) + rest == [0] + tail;
      ghost var n := fill;
      data := 0xFF;
      // do ... while (data == 0xFF)
      while data == 0xFF
        invariant old(next) <= next <= |input|
        invariant data != 0xFF ==> (if segment == [] then data == marker && input[next..] == rest
                                    else data == 0 && input[next..] == tail)
        invariant data == 0xFF ==> input[next..] == if segment == [] then Repeat(255, n) + [marker] + rest
                                                    else [0] + tail
        decreases |input| - next
      {
        if n > 0 {
          RepeatFront(255, n - 1);
          n := n - 1;
        }
        assert input[next] == input[next..][0];
        data := input[next];
        next := next + 1;
        assert input[next..] == input[next - 1..][1..];
      }
    }

    /** Section D.2.6: shift in data until the interval is normalised again. */
    method Renorm()
      requires Valid()
      modifies `next, `unreadMarker, `fetched, `c, `a, `ct, `lag
      ensures Valid() && !Filling() && lag == coder.interval && a >= 0x8000
    {
      hide Stuff, Code, Shl, Run, Inside;
      if ct == -16 {
        Fill();
      }
      while a < 0x8000
        invariant 0 < a <= 0x10000 && Feeds() && Reads(code, fetched, lag, c, a, ct)
        invariant coder.interval == Renormalise(lag) && Inside(code, lag)
        decreases 0x8000 - a
      {
        RenormaliseKeepsInside(code, lag);
        RenormaliseKeepsInside(code, Doubled(lag));
        ct := ct - 1;
        if ct < 0 {
          var data := FetchByte();
          ReadsAfterFetch(code, fetched - 1, lag, c, a, data);
          c := 256 * c + data;
          ct := ct + 8;
        } else {
          ReadsAfterShift(code, fetched, lag, c, a, ct + 1);
        }
        lag := Doubled(lag);
        a := 2 * a;
      }
    }

    /** The same loop while it still collects the two initial bytes. */
    method Fill()
      requires Feeds() && Filling()
      modifies `next, `unreadMarker, `fetched, `c, `a, `ct
      ensures Feeds() && a == 0x10000 && Reads(code, fetched, lag, c, a, ct)
    {
      hide Stuff;
      while a < 0x8000
        invariant Feeds() && lag == Start && a in {0, 0x10000}
        invariant a == 0 ==> ct == -16 + 8 * fetched && fetched <= 1 && c == Code(code, fetched)
        invariant a == 0x10000 ==> ct == 0 && fetched == 2 && c == Code(code, 2)
        decreases 2 - fetched
      {
        ct := ct - 1;
        if ct < 0 {
          var data := FetchByte();
          c := 256 * c + data;
          ct := ct + 8;
          if ct < 0 {
            ct := ct + 1;
            if ct == 0 {
              a := 0x8000;
            }
          }
        }
        a := 2 * a;
      }
      ShlConstants(0);
    }

    /** Decode one decision. Whatever the input, the registers refine the step of the
        interval coder for the answer given; if the segment encodes known decisions
        and the same bin is asked for, the answer is the encoded bit. */
    method Decode(bin: Bin) returns (bit: Bit)
      requires Valid() && InArea(bin)
      modifies this
      ensures Valid()
      ensures code == old(code) && fill == old(fill) && marker == old(marker) && rest == old(rest)
      ensures coder == Step(old(coder), Decision(bin, bit))
      ensures if old(future) != [] && old(future)[0].bin == bin
              then bit == old(future)[0].bit && future == old(future)[1..]
              else future == []
    {
      hide Stuff, Code, Shl, Run, Inside, Chosen, Estimate, Renormalise, Reads;
      Renorm();
      bit := Compare(bin);
      ghost var d := Decision(bin, bit);
      ghost var i := Chosen(coder, d);
      RenormaliseKeepsInside(code, i);
      if future != [] && future[0].bin == bin {
        NextDecisionForced(code, coder, future, bit);
        RunFirst(coder, future);
        future := future[1..];
      } else {
        RunEmpty(Step(coder, d));
        future := [];
      }
      coder, lag := Step(coder, d), i;
    }

    /** Sections D.2.4 and D.2.5: compare, exchange, and move the estimate. */
    method Compare(bin: Bin) returns (bit: Bit)
      requires Ready(coder) && Reads(code, fetched, coder.interval, c, a, ct) && coder.bins == bins
      requires Inside(code, coder.interval) && a <= 0x10000
      modifies `c, `a, `bins
      ensures Inside(code, Chosen(coder, Decision(bin, bit)))
      ensures Reads(code, fetched, Chosen(coder, Decision(bin, bit)), c, a, ct) && 0 < a <= 0x10000
      ensures bins == Estimate(coder, Decision(bin, bit))
    {
      hide Code, Shl, Inside, AfterLps, AfterMps, Qe;
      var sv := Stat(bins, bin);
      var qe := Qe(sv);
      CompareDecides(code, fetched, coder.interval, c, a, ct, qe);
      var mps := sv.mps;
      a := a - qe;
      var temp := Shl(a, ct);
      if c >= temp {
        c := c - temp;
        if a < qe {
          a := qe;
          bins := bins[bin := AfterMps(sv)];
          bit := mps;
        } else {
          a := qe;
          bins := bins[bin := AfterLps(sv)];
          bit := 1 - mps;
        }
      } else {
        bit := mps;
        if a < 0x8000 {
          if a < qe {
            bins := bins[bin := AfterLps(sv)];
            bit := 1 - mps;
          } else {
            bins := bins[bin := AfterMps(sv)];
          }
        }
      }
    }

    /** Skip to the marker that ends the segment (next_marker of the marker reader). */
    method NextMarker()
      requires Feeds() && unreadMarker == 0
      modifies `next, `unreadMarker, `fetched
      ensures Feeds() && unreadMarker == marker
    {
      hide Feeds;
      while unreadMarker == 0
        invariant Feeds()
        decreases |input| - next
      {
        SkipToFF();
        PassFF();
      }
      MarkerSeen();
    }

    lemma {:induction false} MarkerSeen()
      requires Feeds() && unreadMarker != 0
      ensures unreadMarker == marker
    {
    }

    /** A stuffed 0xFF is dropped, a marker noted. */
    method PassFF()
      requires Feeds() && unreadMarker == 0 && next < |input| && input[next] == 0xFF
      modifies `next, `unreadMarker, `fetched
      ensures Feeds() && old(next) < next <= |input|
    {
      hide Stuff, Repeat;
      ghost var segment := code[fetched..];
      SegmentFirst(code, fetched);
      ghost var seen := input[next..];
      assert seen[0] == 0xFF && seen[1..] == input[next + 1..];
      next := next + 1;
      var b := AfterFF(segment);
      if b == 0 {
        fetched := fetched + 1;
      } else {
        unreadMarker := b;
      }
    }

    /** Skip bytes that are not 0xFF; each is a byte of the segment. */
    method SkipToFF()
      requires Feeds() && unreadMarker == 0
      modifies `next, `fetched
      ensures Feeds() && next >= old(next) && next < |input| && input[next] == 0xFF
    {
      hide Stuff, Repeat;
      while true
        invariant Feeds() && next >= old(next)
        decreases |input| - next
      {
        SegmentFirst(code, fetched);
        assert input[next] == input[next..][0];
        if input[next] == 0xFF {
          return;
        }
        assert input[next + 1..] == input[next..][1..];
        next := next + 1;
        fetched := fetched + 1;
      }
    }

    /** Process a restart marker and start on the segment behind it. */
    method Restart(ghost code: seq<Byte>, ghost fill: nat, ghost marker: Byte, ghost rest: seq<Byte>,
                   ghost future: seq<Decision>)
      requires Valid() && 0 < marker < 255 && this.rest == Stuff(code) + Marker(fill, marker) + rest
      requires Inside(code, Run(Coder(Start, map[]), future).interval)
      modifies this
      ensures Valid()
      ensures this.code == code && this.fill == fill && this.marker == marker && this.rest == rest
      ensures this.future == future
    {
      hide Stuff, Code, Run, Marker, Inside;
      if unreadMarker == 0 {
        NextMarker();
      }
      Begin(map[], code, fill, marker, rest, future);
    }
  }
}
