/** The progressive Huffman coder's AC scans (jcphuff.c): end-of-block runs and the
    buffer of correction bits. Entropy-coded bytes are left to the bit writer. */
module ProgressiveAc {
  import opened Shifts
  import opened ProbabilityTable
  import opened BitStrings
  import opened EobRuns

  function CountOf(items: seq<Item>, s: nat): nat {
    if items == [] then 0
    else CountOf(items[..|items| - 1], s) + if items[|items| - 1] == Symbol(s) then 1 else 0
  }

  lemma {:induction false} CountAppend(items: seq<Item>, item: Item)
    ensures forall s :: CountOf(items + [item], s) == CountOf(items, s) + if item == Symbol(s) then 1 else 0
  {
    var all := items + [item];
    assert all[..|all| - 1] == items;
  }

  class AcEncoder {
    const gatherStatistics: bool
    var eobrun: nat
    var be: nat
    const bitBuffer: array<Bit>
    var counts: seq<nat>             // statistics, in a gathering pass
    var output: seq<Item>            // what is written, in an output pass
    ghost var items: seq<Item>       // all that is emitted, in either
    ghost var st: EobState

    /** A gathering pass counts exactly the symbols an output pass writes. */
    ghost predicate Accounted()
      reads this
    {
      && |counts| == 256
      && if gatherStatistics then output == [] && forall s :: 0 <= s < 256 ==> counts[s] == CountOf(items, s)
         else output == items
    }

    /** The counters and the buffer hold the open run. */
    ghost predicate Pending()
      reads this, bitBuffer
    {
      && ValidState(st) && bitBuffer.Length == MAX_CORR_BITS
      && eobrun == |st.pending| && be == |TailBits(st.pending)| && bitBuffer[..be] == TailBits(st.pending)
    }

    ghost predicate Valid()
      reads this, bitBuffer
    {
      Accounted() && Pending() && Settled(st) && items == Sent(st)
    }

    constructor (gather: bool)
      ensures Valid() && fresh(bitBuffer) && gatherStatistics == gather && st == EobState([], []) && items == []
    {
      gatherStatistics := gather;
      eobrun, be := 0, 0;
      bitBuffer := new Bit[MAX_CORR_BITS](_ => 0);
      counts, output, items, st := seq(256, _ => 0), [], [], EobState([], []);
      new;
      TailBitsNone();
    }

    /** Between MCUs correction bits wait only for an open run, and there is room. */
    lemma {:induction false} RoomForNext()
      requires Valid()
      ensures be > 0 ==> eobrun > 0
      ensures eobrun < MAX_EOBRUN && be + (BLOCK_SIZE - 1) <= MAX_CORR_BITS
    {
      TailBitsNone();
    }

    method EmitSymbol(s: nat)
      requires Accounted() && s < 256
      modifies `counts, `output, `items
      ensures Accounted() && items == old(items) + [Symbol(s)]
    {
      CountAppend(items, Symbol(s));
      items := items + [Symbol(s)];
      if gatherStatistics {
        counts := counts[s := counts[s] + 1];
      } else {
        output := output + [Symbol(s)];
      }
    }

    method EmitBit(bit: Bit)
      requires Accounted()
      modifies `output, `items
      ensures Accounted() && items == old(items) + [Raw(bit)]
    {
      CountAppend(items, Raw(bit));
      items := items + [Raw(bit)];
      if !gatherStatistics {
        output := output + [Raw(bit)];
      }
    }

    method EmitBits(bits: seq<Bit>)
      requires Accounted()
      modifies `output, `items
      ensures Accounted() && items == old(items) + Raws(bits)
    {
      for i := 0 to |bits|
        invariant Accounted() && items == old(items) + Raws(bits)[..i]
      {
        EmitBit(bits[i]);
      }
    }

    /** `nbits` bits out of the buffer. */
    method EmitBufferedBits(start: nat, nbits: nat)
      requires Accounted() && start + nbits <= bitBuffer.Length
      modifies `output, `items
      ensures Accounted() && items == old(items) + Raws(bitBuffer[start..start + nbits])
    {
      EmitBits(bitBuffer[start..start + nbits]);
    }

    /** Send the open run, if there is one. The length never needs more than 14 extra
        bits, so its symbol exists. */
    method EmitEobrun() returns (ok: bool)
      requires Accounted() && Pending()
      modifies `eobrun, `be, `counts, `output, `items, `st
      ensures ok && Accounted() && Pending() && st == Flushed(old(st))
      ensures items == old(items) + if old(st.pending) == [] then [] else EobCode(|old(st.pending)|) + Raws(TailBits(old(st.pending)))
    {
      hide TailBits, CountOf, Flushed, AllItems;
      ok := true;
      TailBitsNone();
      FlushSettles(st);
      ghost var tail := TailBits(st.pending);
      if eobrun > 0 {
        ok := EmitRunLength(eobrun);
        eobrun := 0;
        assert bitBuffer[0..0 + be] == tail;
        EmitBufferedBits(0, be);
        be := 0;
      }
      st := Flushed(st);
    }

    method EmitRunLength(run: nat) returns (ok: bool)
      requires Accounted() && 0 < run <= MAX_EOBRUN
      modifies `counts, `output, `items
      ensures ok && Accounted() && items == old(items) + EobCode(run)
    {
      hide CountOf, BitLength;
      RunLength(run);
      var nbits := BitLength(run) - 1;
      ok := nbits <= 14;
      EmitSymbol(16 * nbits);
      if nbits != 0 {
        EmitBits(BitsOf(run, nbits));
      }
    }

    /** The end of a block: one more in the run, with the correction bits behind those
        in the buffer. */
    method EndOfBlock(br: nat, ghost code: BlockCode, ghost before: EobState)
      requires Accounted() && Pending() && ValidState(before) && Settled(before) && ValidCode(code) && code.eob
      requires st == (if code.prefix == [] then before else Flushed(before)) && items == Sent(st) + code.prefix
      requires br == |code.tail| && be + br <= MAX_CORR_BITS && bitBuffer[be..be + br] == code.tail
      modifies `eobrun, `be, `counts, `output, `items, `st
      ensures Valid() && st == Added(before, code)
    {
      hide TailBits, CountOf, AllItems, Flushed;
      FlushSettles(before);
      TailBitsAppend(st.pending, code);
      OpenSends(before, code);
      eobrun := eobrun + 1;
      assert bitBuffer[..be + br] == bitBuffer[..be] + bitBuffer[be..be + br];
      be := be + br;
      st := Opened(before, code);
      if eobrun == MAX_EOBRUN || be > CORR_LIMIT {
        FlushSends(st);
        var _ := EmitEobrun();
      }
    }

    /** One block of a first scan. Fails on a magnitude of more than ten bits. */
    method EncodeMcuAcFirst(vals: seq<nat>, negative: seq<bool>) returns (ok: bool)
      requires Valid() && 0 < |vals| == |negative| < BLOCK_SIZE
      modifies this
      ensures ok <==> forall k :: 0 <= k < |vals| ==> BitLength(vals[k]) <= MAX_COEF_BITS
      ensures ok ==> ValidCode(FirstFrom(vals, negative, 0, 0)) && Valid()
                     && st == Added(old(st), FirstFrom(vals, negative, 0, 0))
    {
      hide TailBits, CountOf, AllItems, Flushed, FirstFrom, BitLength, Sent, Opened, Added;
      FirstIsValid(vals, negative, 0, 0);
      ghost var code, before := FirstFrom(vals, negative, 0, 0), st;
      var end := NonzeroEnd(vals);
      FlushSettles(before);
      FlushSends(before);
      if end > 0 && eobrun > 0 {
        var _ := EmitEobrun();
      }
      ok := SendCoefs(vals, negative, end);
      if ok {
        OpenSends(before, code);
        if end < |vals| {
          EndOfBlock(0, code, before);
        } else {
          st := Opened(before, code);
          SingleAdded(before, code);
        }
      }
    }

    /** All nonzero coefficients, up to position `end`. */
    method SendCoefs(vals: seq<nat>, negative: seq<bool>, end: nat) returns (ok: bool)
      requires Accounted() && |vals| == |negative| && end == NonzeroEnd(vals)
      modifies `counts, `output, `items
      ensures Accounted()
      ensures ok <==> forall k :: 0 <= k < |vals| ==> BitLength(vals[k]) <= MAX_COEF_BITS
      ensures var code := FirstFrom(vals, negative, 0, 0);
              && (code.prefix == [] <==> end == 0) && (code.eob <==> end < |vals|)
              && (ok ==> items == old(items) + code.prefix)
    {
      hide CountOf, FirstFrom, BitLength;
      ghost var code, done := FirstFrom(vals, negative, 0, 0), [];
      PrependTwice([], [], code);
      SomePrefix(vals, negative, 0, 0);
      var k := 0;
      while k < end
        invariant k <= end && Accounted() && items == old(items) + done
        invariant code == Prepend(done, FirstFrom(vals, negative, k, 0))
        invariant forall i :: 0 <= i < k ==> BitLength(vals[i]) <= MAX_COEF_BITS
      {
        ghost var more;
        ok, k, more := NextCoef(vals, negative, k);
        if !ok {
          return;
        }
        PrependTwice(done, more, FirstFrom(vals, negative, k, 0));
        assert old(items) + done + more == old(items) + (done + more);
        done := done + more;
      }
      ok := true;
      FirstEnds(vals, negative, k);
      assert done + [] == done;
    }

    /** The next nonzero coefficient from `k0` on, with the zeros before it. */
    method NextCoef(vals: seq<nat>, negative: seq<bool>, k0: nat) returns (ok: bool, k: nat, ghost more: seq<Item>)
      requires Accounted() && k0 < NonzeroEnd(vals) && |vals| == |negative|
      modifies `counts, `output, `items
      ensures Accounted() && k0 < k <= NonzeroEnd(vals)
      ensures ok <==> BitLength(vals[k - 1]) <= MAX_COEF_BITS
      ensures ok ==> forall i :: k0 <= i < k ==> BitLength(vals[i]) <= MAX_COEF_BITS
      ensures ok ==> items == old(items) + more && more != []
                     && FirstFrom(vals, negative, k0, 0) == Prepend(more, FirstFrom(vals, negative, k, 0))
    {
      hide CountOf, FirstFrom, CoefItems, BitLength;
      more, k := [], k0;
      var r := 0;
      while vals[k] == 0
        modifies {}
        decreases NonzeroEnd(vals) - k
        invariant k0 <= k < NonzeroEnd(vals) && r == k - k0
        invariant FirstFrom(vals, negative, k, r) == FirstFrom(vals, negative, k0, 0)
        invariant forall i :: k0 <= i < k ==> vals[i] == 0
      {
        FirstStep(vals, negative, k, r);
        k := k + 1;
        r := r + 1;
      }
      FirstStep(vals, negative, k, r);
      ZeroLength();
      var nbits := BitLength(vals[k]);
      k := k + 1;
      ok := nbits <= MAX_COEF_BITS;
      if ok {
        more := CoefItems(vals[k - 1], negative[k - 1], r);
        EmitCoef(vals[k - 1], negative[k - 1], r, nbits);
      }
    }

    /** A nonzero coefficient of at most ten bits behind `r` zeros. */
    method EmitCoef(v: nat, negative: bool, r: nat, nbits: nat)
      requires Accounted() && nbits == BitLength(v) <= MAX_COEF_BITS
      modifies `counts, `output, `items
      ensures Accounted() && items == old(items) + CoefItems(v, negative, r)
    {
      hide CountOf, Zrls, BitLength, ValueBits;
      var left := EmitZrls(r);
      EmitSymbol(16 * left + nbits);
      EmitBits(ValueBits(v, negative));
    }

    method EmitZrls(r0: nat) returns (r: nat)
      requires Accounted()
      modifies `counts, `output, `items
      ensures Accounted() && r == r0 % 16 && items == old(items) + Zrls(r0)
    {
      hide Accounted, Zrls;
      r := r0;
      ghost var sent := [];
      ZrlsStep(r);
      while r > 15
        invariant Accounted() && r % 16 == r0 % 16 && items == old(items) + sent && sent + Zrls(r) == Zrls(r0)
        invariant r <= 15 ==> Zrls(r) == []
      {
        ZrlsStep(r);
        ZrlsStep(r - 16);
        EmitSymbol(ZRL);
        sent := sent + [Symbol(ZRL)];
        r := r - 16;
      }
    }

    // ----- refinement scans

    /** In the middle of a block: `done` is sent, and `bits` wait in the buffer. */
    ghost predicate InBlock(before: EobState, done: seq<Item>, bits: seq<Bit>)
      reads this, bitBuffer
    {
      && Accounted() && Pending() && ValidState(before) && Settled(before)
      && st == (if done == [] then before else Flushed(before)) && items == Sent(st) + done
      && be + |bits| <= MAX_CORR_BITS && bitBuffer[be..be + |bits|] == bits
    }

    /** The open run; the waiting bits stay where they are in the buffer. */
    method EmitPending(ghost before: EobState, ghost done: seq<Item>, ghost bits: seq<Bit>) returns (start: nat)
      requires InBlock(before, done, bits)
      modifies `eobrun, `be, `counts, `output, `items, `st
      ensures Accounted() && Pending() && ValidState(before) && st == Flushed(before) && be == 0
      ensures items == Sent(st) + done && start + |bits| <= MAX_CORR_BITS && bitBuffer[start..start + |bits|] == bits
    {
      hide TailBits, CountOf, AllItems, Flushed, Sent;
      TailBitsNone();
      FlushSettles(before);
      FlushSettles(st);
      FlushSends(st);
      StateFlushed(before, done);
      assert done == [] ==> items == Sent(st);
      start := be;
      var _ := EmitEobrun();
      assert Sent(st) + [] == Sent(st);
    }

    /** The open run, a symbol with its own bits, and the waiting correction bits. */
    method EmitCode(s: nat, extra: seq<Bit>, br: nat, ghost before: EobState, ghost done: seq<Item>, ghost bits: seq<Bit>)
      requires InBlock(before, done, bits) && br == |bits| && s < 256
      modifies `eobrun, `be, `counts, `output, `items, `st
      ensures InBlock(before, done + ([Symbol(s)] + Raws(extra) + Raws(bits)), []) && be == 0
    {
      hide TailBits, CountOf, AllItems, Flushed, Sent, Accounted, Raws, Settled;
      AccountedAndSettled(before, done, bits);
      var start := EmitPending(before, done, bits);
      EmitSymbol(s);
      EmitBits(extra);
      EmitBufferedBits(start, br);
      CodeSent(Sent(st), done, s, extra, bits);
    }

    lemma {:induction false} AccountedAndSettled(before: EobState, done: seq<Item>, bits: seq<Bit>)
      requires InBlock(before, done, bits)
      ensures Settled(before) && bitBuffer.Length >= MAX_CORR_BITS
    {
    }

    lemma {:induction false} CodeSent(sent: seq<Item>, done: seq<Item>, s: nat, extra: seq<Bit>, bits: seq<Bit>)
      ensures sent + done + [Symbol(s)] + Raws(extra) + Raws(bits) == sent + (done + ([Symbol(s)] + Raws(extra) + Raws(bits)))
    {
    }

    /** Zero runs over 15, up to the last newly nonzero coefficient. */
    method FoldZeros(r0: nat, br0: nat, ghost before: EobState, ghost done: seq<Item>, ghost bits: seq<Bit>) returns (r: nat, br: nat)
      requires InBlock(before, done, bits) && br0 == |bits|
      modifies `eobrun, `be, `counts, `output, `items, `st
      ensures InBlock(before, done + RefineZrls(r0, bits), if r0 > 15 then [] else bits)
      ensures r == r0 % 16 && br == if r0 > 15 then 0 else br0
    {
      hide InBlock, RefineZrls, Raws;
      r, br := r0, br0;
      ghost var sent, wait := [], bits;
      assert done + [] == done;
      while r > 15
        invariant InBlock(before, done + sent, wait) && br == |wait| && r % 16 == r0 % 16
        invariant (r == r0 && wait == bits && sent == []) || (r < r0 && wait == [] && r0 > 15)
        invariant sent + RefineZrls(r, wait) == RefineZrls(r0, bits)
      {
        EmitCode(ZRL, [], br, before, done + sent, wait);
        sent := FoldedOnce(done, sent, r, wait);
        r, br, wait := r - 16, 0, [];
      }
      NothingFolded(r, wait);
      assert sent + [] == sent;
    }

    /** A nonzero coefficient at `k`, behind `r0` zeros. */
    method RefineCoef(v: nat, negative: bool, k: nat, last: nat, r0: nat, br0: nat,
                      ghost before: EobState, ghost done: seq<Item>, ghost bits: seq<Bit>) returns (r: nat, br: nat)
      requires InBlock(before, done, bits) && br0 == |bits| <= k < BLOCK_SIZE - 1 && v != 0 && (v == 1 ==> k <= last)
      modifies `eobrun, `be, `counts, `output, `items, `st, bitBuffer
      ensures var fold := r0 > 15 && k <= last;
              && r == (if v == 1 then 0 else if fold then r0 % 16 else r0)
              && InBlock(before, done + RefineItems(v, negative, fold, r0, bits),
                         if v == 1 then [] else (if fold then [] else bits) + [v % 2])
              && br == if v == 1 then 0 else (if fold then 0 else br0) + 1
    {
      hide InBlock, RefineZrls;
      r, br := r0, br0;
      ghost var fold := r0 > 15 && k <= last;
      ghost var wait := if fold then [] else bits;
      ghost var zrls := if fold then RefineZrls(r0, bits) else [];
      assert done + [] == done;
      if r0 > 15 && k <= last {
        r, br := FoldZeros(r0, br0, before, done, bits);
      }
      if v > 1 {
        StoreBit(v % 2, br, before, done + zrls, wait);
        br := br + 1;
        return;
      }
      EmitCode(16 * r + 1, [if negative then 0 else 1], br, before, done + zrls, wait);
      OneItems(done, zrls, [Symbol(16 * r + 1)], if negative then 0 else 1, Raws(wait));
      r, br := 0, 0;
    }

    method StoreBit(bit: Bit, br: nat, ghost before: EobState, ghost done: seq<Item>, ghost bits: seq<Bit>)
      requires InBlock(before, done, bits) && br == |bits| < BLOCK_SIZE - 1
      modifies bitBuffer
      ensures InBlock(before, done, bits + [bit])
    {
      hide TailBits, CountOf, AllItems, Sent;
      FlushSettles(before);
      bitBuffer[be + br] := bit;
      assert bitBuffer[be..be + br + 1] == bitBuffer[be..be + br] + [bit];
    }

    /** One block of a refinement scan. */
    method EncodeMcuAcRefine(vals: seq<nat>, negative: seq<bool>)
      requires Valid() && 0 < |vals| == |negative| < BLOCK_SIZE
      modifies this, bitBuffer
      ensures ValidCode(RefineCode(vals, negative)) && Valid() && st == Added(old(st), RefineCode(vals, negative))
    {
      hide RefineFrom, RefineItems, LastNew, InBlock;
      RefineIsValid(vals, negative, LastNew(vals, |vals|), 0, 0, []);
      ghost var code, before, done := RefineCode(vals, negative), st, [];
      ghost var bits: seq<Bit> := [];
      PrependTwice([], [], code);
      BlockStarts(before);
      var last, end := LastNew(vals, |vals|), NonzeroEnd(vals);
      var k: nat, r: nat, br: nat := 0, 0, 0;
      while k < end
        invariant k <= end && br == |bits| && br + r <= k && InBlock(before, done, bits)
        invariant code == Prepend(done, RefineFrom(vals, negative, last, k, r, bits))
      {
        RefineStep(vals, negative, last, k, r, bits);
        if vals[k] == 0 {
          r := r + 1;
        } else {
          ghost var fold := r > 15 && k <= last;
          ghost var more, v := RefineItems(vals[k], negative[k], fold, r, bits), vals[k];
          LastNewBound(vals, k);
          r, br := RefineCoef(vals[k], negative[k], k, last, r, br, before, done, bits);
          bits := if v == 1 then [] else (if fold then [] else bits) + [v % 2];
          PrependTwice(done, more, RefineFrom(vals, negative, last, k + 1, r, bits));
          done := done + more;
        }
        k := k + 1;
      }
      RefineEnds(vals, negative, last, k, r, bits);
      assert done + [] == done;
      if r > 0 || k < |vals| || br > 0 {
        BlockSt(before, done, bits);
        EndOfBlock(br, code, before);
      } else {
        FinishSingle(code, before);
      }
    }

    lemma {:induction false} BlockStarts(before: EobState)
      requires Valid() && before == st
      ensures InBlock(before, [], [])
    {
      hide TailBits, CountOf, AllItems, Sent;
      assert items + [] == items;
    }

    lemma {:induction false} BlockSt(before: EobState, done: seq<Item>, bits: seq<Bit>)
      requires InBlock(before, done, bits)
      ensures Accounted() && Pending() && ValidState(before) && Settled(before)
      ensures st == (if done == [] then before else Flushed(before)) && items == Sent(st) + done
      ensures be + |bits| <= MAX_CORR_BITS && bitBuffer[be..be + |bits|] == bits
    {
    }

    method FinishSingle(ghost code: BlockCode, ghost before: EobState)
      requires InBlock(before, code.prefix, []) && ValidCode(code) && !code.eob
      modifies `st
      ensures Valid() && st == Added(before, code)
    {
      hide TailBits, CountOf, AllItems;
      OpenSends(before, code);
      SingleAdded(before, code);
      FlushSettles(before);
      TailBitsNone();
      st := Opened(before, code);
    }

    /** End of the scan, or of a restart interval. */
    method FinishPass()
      requires Valid()
      modifies `eobrun, `be, `counts, `output, `items, `st
      ensures Valid() && st == Flushed(old(st)) && be == eobrun == 0
    {
      hide TailBits, CountOf, AllItems, Flushed;
      FlushSends(st);
      FlushSettles(st);
      TailBitsNone();
      var _ := EmitEobrun();
      assert Sent(st) + [] == Sent(st);
    }
  }


  const MAX_COEF_BITS := 10

  lemma {:induction false} FlushSettles(st: EobState)
    requires ValidState(st)
    ensures ValidState(Flushed(st)) && Settled(Flushed(st)) && Flushed(st).pending == []
    ensures st.pending == [] ==> Flushed(st) == st
  {
  }

  lemma {:induction false} ZeroLength()
    ensures BitLength(0) == 0
  {
  }

  /** Past the last nonzero value. */
  function NonzeroEnd(vals: seq<nat>): (end: nat)
    ensures end <= |vals| && (end > 0 ==> vals[end - 1] != 0)
    ensures forall k :: end <= k < |vals| ==> vals[k] == 0
  {
    if vals == [] then 0
    else if vals[|vals| - 1] != 0 then |vals|
    else NonzeroEnd(vals[..|vals| - 1])
  }

  lemma {:induction false} FirstEnds(vals: seq<nat>, negative: seq<bool>, k: nat)
    requires k <= |vals| == |negative| && forall i :: k <= i < |vals| ==> vals[i] == 0
    ensures FirstFrom(vals, negative, k, 0) == BlockCode([], [], k < |vals|)
    ensures forall i :: k <= i < |vals| ==> BitLength(vals[i]) == 0
  {
    ZerosEnd(vals, negative, k, 0);
  }

  /** A nonzero coefficient leaves a prefix, and zeros at the end an end-of-block. */
  lemma {:induction false} SomePrefix(vals: seq<nat>, negative: seq<bool>, k: nat, r: nat)
    requires k <= |vals| == |negative|
    ensures FirstFrom(vals, negative, k, r).prefix == [] <==> NonzeroEnd(vals) <= k
    ensures k < |vals| ==> (FirstFrom(vals, negative, k, r).eob <==> NonzeroEnd(vals) < |vals|)
    decreases |vals| - k
  {
    if k < |vals| {
      SomePrefix(vals, negative, k + 1, if vals[k] == 0 then r + 1 else 0);
      FirstStep(vals, negative, k, r);
      hide CoefItems;
    }
  }

  /** A block without an end-of-block is a group of its own. */
  lemma {:induction false} SingleAdded(st: EobState, code: BlockCode)
    requires ValidState(st) && Settled(st) && ValidCode(code) && !code.eob
    ensures Added(st, code) == Opened(st, code) && Opened(st, code).pending == [] && Settled(Opened(st, code))
  {
    TailBitsNone();
    hide TailBits, Flushed;
  }

  lemma {:induction false} ZerosEnd(vals: seq<nat>, negative: seq<bool>, k: nat, r: nat)
    requires k <= |vals| == |negative| && forall i :: k <= i < |vals| ==> vals[i] == 0
    ensures FirstFrom(vals, negative, k, r) == BlockCode([], [], r > 0 || k < |vals|)
    decreases |vals| - k
  {
    if k < |vals| {
      ZerosEnd(vals, negative, k + 1, r + 1);
    }
  }

  lemma {:induction false} RunLength(n: nat)
    requires 0 < n <= MAX_EOBRUN
    ensures 0 < BitLength(n) <= 15 && Raws(BitsOf(n, 0)) == []
  {
    ShlConstants(1);
    Pow2Strict(15, BitLength(n) - 1);
  }

  lemma {:induction false} FoldedOnce(done: seq<Item>, sent: seq<Item>, r: nat, wait: seq<Bit>) returns (more: seq<Item>)
    requires r > 15
    ensures done + sent + ([Symbol(ZRL)] + Raws([]) + Raws(wait)) == done + more
    ensures more + RefineZrls(r - 16, []) == sent + RefineZrls(r, wait)
  {
    RefineZrlsStep(r, wait);
    assert Raws([]) == [];
    hide RefineZrls, Raws;
    var step := [Symbol(ZRL)] + Raws(wait);
    more := sent + step;
    assert [Symbol(ZRL)] + [] + Raws(wait) == step;
    assert done + sent + step == done + more;
    assert sent + step + RefineZrls(r - 16, []) == sent + (step + RefineZrls(r - 16, []));
  }

  lemma {:induction false} NothingFolded(r: nat, wait: seq<Bit>)
    requires r <= 15
    ensures RefineZrls(r, wait) == []
  {
  }

  lemma {:induction false} RefineZrlsStep(r: nat, bits: seq<Bit>)
    requires r > 15
    ensures RefineZrls(r, bits) == [Symbol(ZRL)] + Raws(bits) + RefineZrls(r - 16, [])
  {
  }

  /** Flushing again changes nothing. */
  lemma {:induction false} StateFlushed(before: EobState, done: seq<Item>)
    requires ValidState(before)
    ensures Flushed(Flushed(before)) == Flushed(before)
    ensures Flushed(if done == [] then before else Flushed(before)) == Flushed(before)
  {
  }

  lemma {:induction false} OneItems(done: seq<Item>, zrls: seq<Item>, symbol: seq<Item>, bit: Bit, waiting: seq<Item>)
    requires |symbol| == 1
    ensures done + zrls + (symbol + Raws([bit]) + waiting) == done + (zrls + [symbol[0], Raw(bit)] + waiting)
  {
  }

  lemma {:induction false} LastNewBound(vals: seq<nat>, k: nat)
    requires k < |vals|
    ensures vals[k] == 1 ==> k <= LastNew(vals, |vals|)
  {
    if LastNew(vals, |vals|) < k {
      assert vals[k] != 1;
    }
  }

  lemma {:induction false} RefineEnds(vals: seq<nat>, negative: seq<bool>, last: nat, k: nat, r: nat, bits: seq<Bit>)
    requires k <= |vals| == |negative| && forall i :: k <= i < |vals| ==> vals[i] == 0
    ensures RefineFrom(vals, negative, last, k, r, bits) == BlockCode([], bits, r > 0 || k < |vals| || bits != [])
    decreases |vals| - k
  {
    if k < |vals| {
      RefineEnds(vals, negative, last, k + 1, r + 1, bits);
    }
  }

  // ----- whole scans

  /** The band of one block: magnitudes after the point transform, and signs. */
  datatype Band = Band(vals: seq<nat>, negative: seq<bool>)

  predicate ValidBand(b: Band) {
    0 < |b.vals| == |b.negative| < BLOCK_SIZE
  }

  function CodeOf(b: Band): (code: BlockCode)
    requires ValidBand(b)
    ensures ValidCode(code)
  {
    RefineIsValid(b.vals, b.negative, LastNew(b.vals, |b.vals|), 0, 0, []);
    RefineCode(b.vals, b.negative)
  }

  predicate ValidBands(bands: seq<Band>) {
    forall i :: 0 <= i < |bands| ==> ValidBand(bands[i])
  }

  function CodesOf(bands: seq<Band>): (codes: seq<BlockCode>)
    requires ValidBands(bands)
    ensures |codes| == |bands| && forall i :: 0 <= i < |codes| ==> codes[i] == CodeOf(bands[i])
  {
    seq(|bands|, i requires 0 <= i < |bands| => CodeOf(bands[i]))
  }

  /** A refinement scan in a gathering or an output pass. */
  method RefineScan(bands: seq<Band>, gather: bool) returns (output: seq<Item>, counts: seq<nat>)
    requires ValidBands(bands)
    ensures !gather ==> output == ScanItems(CodesOf(bands))
    ensures gather ==> |counts| == 256 && forall s :: 0 <= s < 256 ==> counts[s] == CountOf(ScanItems(CodesOf(bands)), s)
  {
    hide RefineCode, Added, CountOf, Sent, Settled, ValidState;
    var encoder := new AcEncoder(gather);
    ghost var codes := CodesOf(bands);
    for i := 0 to |bands|
      invariant fresh(encoder) && fresh(encoder.bitBuffer) && encoder.Valid() && encoder.gatherStatistics == gather
      invariant encoder.st == AddedAll(codes[..i])
    {
      encoder.EncodeMcuAcRefine(bands[i].vals, bands[i].negative);
      assert codes[..i + 1][..i] == codes[..i];
    }
    assert codes[..|bands|] == codes;
    encoder.FinishPass();
    output, counts := encoder.output, encoder.counts;
  }

  /** What was counted is what is written: in the output pass no symbol appears that the
      gathering pass has not counted, and each as often as counted. */
  method GatherThenWrite(bands: seq<Band>) returns (counts: seq<nat>, output: seq<Item>)
    requires ValidBands(bands)
    ensures |counts| == 256 && forall s :: 0 <= s < 256 ==> counts[s] == CountOf(output, s)
    ensures output == ScanItems(CodesOf(bands))
  {
    hide ScanItems, CodesOf, CountOf;
    var none, unused;
    none, counts := RefineScan(bands, true);
    output, unused := RefineScan(bands, false);
  }
}
