/** Blocks of a progressive Huffman AC scan as symbols and raw bits, and how runs of
    ended blocks are put into one EOBn symbol (section G.1.2 of ITU-T T.81). */
module EobRuns {
  import opened Shifts
  import opened ProbabilityTable
  import opened BitStrings

  const MAX_EOBRUN := 0x7FFF
  const MAX_CORR_BITS := 1000
  const BLOCK_SIZE := 64
  const CORR_LIMIT := MAX_CORR_BITS - BLOCK_SIZE + 1
  const ZRL := 0xF0

  /** What is sent: a Huffman symbol, or a bit as it is. */
  datatype Item = Symbol(s: nat) | Raw(bit: Bit)

  function Raws(bits: seq<Bit>): (items: seq<Item>)
    ensures |items| == |bits| && forall i :: 0 <= i < |bits| ==> items[i] == Raw(bits[i])
  {
    seq(|bits|, i requires 0 <= i < |bits| => Raw(bits[i]))
  }

  /** A block: what must be sent at once, the correction bits that may wait, and whether
      it ends with an end-of-block. */
  datatype BlockCode = BlockCode(prefix: seq<Item>, tail: seq<Bit>, eob: bool)

  predicate ValidCode(code: BlockCode) {
    |code.tail| < BLOCK_SIZE && (!code.eob ==> code.prefix != [] && code.tail == [])
  }

  function Prepend(items: seq<Item>, code: BlockCode): BlockCode {
    code.(prefix := items + code.prefix)
  }

  lemma {:induction false} PrependTwice(a: seq<Item>, b: seq<Item>, code: BlockCode)
    ensures Prepend(a, Prepend(b, code)) == Prepend(a + b, code)
    ensures Prepend([], code) == code
  {
    assert a + (b + code.prefix) == a + b + code.prefix;
    assert [] + code.prefix == code.prefix;
  }

  // ----- one block, first scan

  function BitLength(v: nat): (n: nat)
    ensures v > 0 ==> n > 0 && Pow2(n - 1) <= v < Pow2(n)
    ensures v == 0 ==> n == 0
  {
    if v == 0 then 0 else 1 + BitLength(v / 2)
  }

  function Zrls(r: nat): seq<Item> {
    if r > 15 then [Symbol(ZRL)] + Zrls(r - 16) else []
  }

  lemma {:induction false} ZrlsStep(r: nat)
    ensures r > 15 ==> Zrls(r) == [Symbol(ZRL)] + Zrls(r - 16)
    ensures r <= 15 ==> Zrls(r) == []
  {
  }

  /** A magnitude with its sign: its bits, complemented for a negative value. */
  function ValueBits(v: nat, negative: bool): seq<Bit> {
    var n := BitLength(v);
    if negative then BitsOf(Pow2(n) - 1 - v, n) else BitsOf(v, n)
  }

  /** A nonzero coefficient behind `r` zeros. */
  function CoefItems(v: nat, negative: bool, r: nat): seq<Item> {
    Zrls(r) + [Symbol(16 * (r % 16) + BitLength(v))] + Raws(ValueBits(v, negative))
  }

  /** From coefficient `k` on, behind `r` zeros. */
  function FirstFrom(vals: seq<nat>, negative: seq<bool>, k: nat, r: nat): BlockCode
    requires k <= |vals| == |negative|
    decreases |vals| - k
  {
    if k == |vals| then BlockCode([], [], r > 0)
    else if vals[k] == 0 then FirstFrom(vals, negative, k + 1, r + 1)
    else
      Prepend(CoefItems(vals[k], negative[k], r), FirstFrom(vals, negative, k + 1, 0))
  }

  // ----- one block, refinement scan

  /** Position of the last newly nonzero coefficient, 0 if there is none. */
  function LastNew(vals: seq<nat>, n: nat): (e: nat)
    requires n <= |vals|
    ensures n > 0 ==> e < n
    ensures forall k :: e < k < n ==> vals[k] != 1
  {
    if n == 0 then 0 else if vals[n - 1] == 1 then n - 1 else LastNew(vals, n - 1)
  }

  /** Zero runs over 15, the correction bits behind the first. */
  function RefineZrls(r: nat, bits: seq<Bit>): seq<Item> {
    if r > 15 then [Symbol(ZRL)] + Raws(bits) + RefineZrls(r - 16, []) else []
  }

  /** From coefficient `k` on, behind `r` zeros and with `bits` not sent yet. */
  function RefineFrom(vals: seq<nat>, negative: seq<bool>, last: nat, k: nat, r: nat, bits: seq<Bit>): BlockCode
    requires k <= |vals| == |negative|
    decreases |vals| - k
  {
    if k == |vals| then BlockCode([], bits, r > 0 || bits != [])
    else if vals[k] == 0 then RefineFrom(vals, negative, last, k + 1, r + 1, bits)
    else
      var fold := r > 15 && k <= last;
      var zrls := if fold then RefineZrls(r, bits) else [];
      var left, waiting := if fold then r % 16 else r, if fold then [] else bits;
      if vals[k] > 1 then
        Prepend(zrls, RefineFrom(vals, negative, last, k + 1, left, waiting + [vals[k] % 2]))
      else
        Prepend(zrls + [Symbol(16 * left + 1), Raw(if negative[k] then 0 else 1)] + Raws(waiting),
                RefineFrom(vals, negative, last, k + 1, 0, []))
  }

  /** A refined block. */
  function RefineCode(vals: seq<nat>, negative: seq<bool>): BlockCode
    requires |vals| == |negative|
  {
    RefineFrom(vals, negative, LastNew(vals, |vals|), 0, 0, [])
  }

  /** What a nonzero coefficient sends at once. */
  function RefineItems(v: nat, negative: bool, fold: bool, r: nat, bits: seq<Bit>): seq<Item> {
    var zrls := if fold then RefineZrls(r, bits) else [];
    if v > 1 then zrls
    else zrls + [Symbol(16 * (if fold then r % 16 else r) + 1), Raw(if negative then 0 else 1)] + Raws(if fold then [] else bits)
  }

  lemma {:induction false} RefineStep(vals: seq<nat>, negative: seq<bool>, last: nat, k: nat, r: nat, bits: seq<Bit>)
    requires k < |vals| == |negative|
    ensures var fold := r > 15 && k <= last;
            RefineFrom(vals, negative, last, k, r, bits)
            == if vals[k] == 0 then RefineFrom(vals, negative, last, k + 1, r + 1, bits)
               else if vals[k] > 1 then
                 Prepend(RefineItems(vals[k], negative[k], fold, r, bits),
                         RefineFrom(vals, negative, last, k + 1, if fold then r % 16 else r, (if fold then [] else bits) + [vals[k] % 2]))
               else Prepend(RefineItems(vals[k], negative[k], fold, r, bits), RefineFrom(vals, negative, last, k + 1, 0, []))
  {
  }

  lemma {:induction false} FirstIsValid(vals: seq<nat>, negative: seq<bool>, k: nat, r: nat)
    requires k <= |vals| == |negative|
    ensures FirstFrom(vals, negative, k, r).tail == []
    ensures k < |vals| ==> ValidCode(FirstFrom(vals, negative, k, r))
    ensures r > 0 ==> ValidCode(FirstFrom(vals, negative, k, r))
    decreases |vals| - k
  {
    if k < |vals| {
      FirstStep(vals, negative, k, r);
      hide FirstFrom, CoefItems;
      FirstIsValid(vals, negative, k + 1, if vals[k] == 0 then r + 1 else 0);
    }
  }

  lemma {:induction false} FirstStep(vals: seq<nat>, negative: seq<bool>, k: nat, r: nat)
    requires k < |vals| == |negative|
    ensures FirstFrom(vals, negative, k, r)
         == if vals[k] == 0 then FirstFrom(vals, negative, k + 1, r + 1)
            else Prepend(CoefItems(vals[k], negative[k], r), FirstFrom(vals, negative, k + 1, 0))
    ensures CoefItems(vals[k], negative[k], r) != []
  {
  }

  lemma {:induction false} RefineIsValid(vals: seq<nat>, negative: seq<bool>, last: nat, k: nat, r: nat, bits: seq<Bit>)
    requires k <= |vals| == |negative| < BLOCK_SIZE && |bits| + r <= k
    ensures |RefineFrom(vals, negative, last, k, r, bits).tail| < BLOCK_SIZE
    ensures !RefineFrom(vals, negative, last, k, r, bits).eob ==> RefineFrom(vals, negative, last, k, r, bits).tail == []
    ensures k < |vals| || r > 0 || bits != [] ==> ValidCode(RefineFrom(vals, negative, last, k, r, bits))
    decreases |vals| - k
  {
    hide RefineItems, RefineFrom;
    if k == |vals| {
      RefineAtEnd(vals, negative, last, k, r, bits);
    } else {
      var fold := r > 15 && k <= last;
      RefineStep(vals, negative, last, k, r, bits);
      if vals[k] == 0 {
        RefineIsValid(vals, negative, last, k + 1, r + 1, bits);
      } else {
        SomeItems(vals[k], negative[k], fold, r, bits);
        var left, waiting := if fold then r % 16 else r, if fold then [] else bits;
        if vals[k] > 1 {
          assert left <= r;
          RefineIsValid(vals, negative, last, k + 1, left, waiting + [vals[k] % 2]);
        } else {
          RefineIsValid(vals, negative, last, k + 1, 0, []);
        }
      }
    }
  }

  lemma {:induction false} RefineAtEnd(vals: seq<nat>, negative: seq<bool>, last: nat, k: nat, r: nat, bits: seq<Bit>)
    requires k == |vals| == |negative|
    ensures RefineFrom(vals, negative, last, k, r, bits) == BlockCode([], bits, r > 0 || bits != [])
  {
  }

  lemma {:induction false} SomeItems(v: nat, negative: bool, fold: bool, r: nat, bits: seq<Bit>)
    ensures v <= 1 || (fold && r > 15) ==> RefineItems(v, negative, fold, r, bits) != []
  {
  }

  // ----- runs of ended blocks

  /** A finished group: one block without an end-of-block, or blocks that share one; all
      but the first are empty but for correction bits. */
  datatype Group = Single(code: BlockCode) | Run(codes: seq<BlockCode>)

  function TailBits(codes: seq<BlockCode>): seq<Bit> {
    if codes == [] then [] else TailBits(codes[..|codes| - 1]) + codes[|codes| - 1].tail
  }

  /** EOBn: the length of the run, its leading bit in the symbol. */
  function EobCode(n: nat): seq<Item>
    requires n > 0
  {
    [Symbol(16 * (BitLength(n) - 1))] + Raws(BitsOf(n, BitLength(n) - 1))
  }

  function GroupItems(group: Group): seq<Item>
    requires group.Run? ==> group.codes != []
  {
    match group
    case Single(code) => code.prefix
    case Run(codes) => codes[0].prefix + EobCode(|codes|) + Raws(TailBits(codes))
  }

  predicate ValidGroup(group: Group) {
    match group
    case Single(code) => !code.eob
    case Run(codes) =>
      && 0 < |codes| <= MAX_EOBRUN
      && (forall i :: 0 <= i < |codes| ==> codes[i].eob)
      && forall i :: 0 < i < |codes| ==> codes[i].prefix == []
  }

  function AllItems(groups: seq<Group>): seq<Item>
    requires forall i :: 0 <= i < |groups| ==> ValidGroup(groups[i])
  {
    if groups == [] then []
    else
      var n := |groups| - 1;
      assert ValidGroup(groups[n]);
      AllItems(groups[..n]) + GroupItems(groups[n])
  }

  function Codes(group: Group): seq<BlockCode> {
    match group
    case Single(code) => [code]
    case Run(codes) => codes
  }

  function AllCodes(groups: seq<Group>): seq<BlockCode> {
    if groups == [] then [] else AllCodes(groups[..|groups| - 1]) + Codes(groups[|groups| - 1])
  }

  /** Groups sent, and the run still open: its first block's prefix is sent already. */
  datatype EobState = EobState(groups: seq<Group>, pending: seq<BlockCode>)

  predicate ValidState(st: EobState) {
    && (forall i :: 0 <= i < |st.groups| ==> ValidGroup(st.groups[i]))
    && |st.pending| <= MAX_EOBRUN && |TailBits(st.pending)| <= MAX_CORR_BITS
    && (forall i :: 0 <= i < |st.pending| ==> st.pending[i].eob)
    && forall i :: 0 < i < |st.pending| ==> st.pending[i].prefix == []
  }

  /** Between blocks there is room for one more in the counter and in the buffer. */
  predicate Settled(st: EobState) {
    |st.pending| < MAX_EOBRUN && |TailBits(st.pending)| <= CORR_LIMIT
  }

  function Sent(st: EobState): seq<Item>
    requires ValidState(st)
  {
    AllItems(st.groups) + if st.pending == [] then [] else st.pending[0].prefix
  }

  /** Send the open run. */
  function Flushed(st: EobState): (r: EobState)
    requires ValidState(st)
    ensures ValidState(r) && Settled(r) && r.pending == []
  {
    TailBitsNone();
    if st.pending == [] then st else EobState(st.groups + [Run(st.pending)], [])
  }

  /** One more block: a prefix ends the open run first. */
  function Opened(st: EobState, code: BlockCode): (r: EobState)
    requires ValidState(st) && Settled(st) && ValidCode(code)
    ensures ValidState(r)
  {
    TailBitsNone();
    var before := if code.prefix == [] then st else Flushed(st);
    TailBitsAppend(before.pending, code);
    if code.eob then EobState(before.groups, before.pending + [code])
    else EobState(before.groups + [Single(code)], [])
  }

  /** The state behind one more block, its run sent if there is no more room. */
  function Added(st: EobState, code: BlockCode): (r: EobState)
    requires ValidState(st) && Settled(st) && ValidCode(code)
    ensures ValidState(r) && Settled(r)
  {
    var open := Opened(st, code);
    if Settled(open) then open else Flushed(open)
  }

  lemma {:induction false} TailBitsNone()
    ensures TailBits([]) == []
  {
  }

  lemma {:induction false} TailBitsAppend(codes: seq<BlockCode>, code: BlockCode)
    ensures TailBits(codes + [code]) == TailBits(codes) + code.tail
  {
    assert (codes + [code])[..|codes|] == codes;
  }

  lemma {:induction false} ItemsAppend(groups: seq<Group>, group: Group)
    requires ValidGroup(group) && forall i :: 0 <= i < |groups| ==> ValidGroup(groups[i])
    ensures AllItems(groups + [group]) == AllItems(groups) + GroupItems(group)
    ensures AllCodes(groups + [group]) == AllCodes(groups) + Codes(group)
  {
    hide GroupItems;
    var all := groups + [group];
    assert all[..|all| - 1] == groups;
  }

  /** Every block, in order. */
  function Blocks(st: EobState): seq<BlockCode> {
    AllCodes(st.groups) + st.pending
  }

  lemma {:induction false} FlushSends(st: EobState)
    requires ValidState(st)
    ensures Blocks(Flushed(st)) == Blocks(st)
    ensures Sent(Flushed(st)) == Sent(st) + if st.pending == [] then [] else EobCode(|st.pending|) + Raws(TailBits(st.pending))
  {
    hide EobCode, TailBits, AllItems, AllCodes;
    if st.pending != [] {
      ItemsAppend(st.groups, Run(st.pending));
      assert AllItems(st.groups) + (st.pending[0].prefix + EobCode(|st.pending|) + Raws(TailBits(st.pending)))
          == AllItems(st.groups) + st.pending[0].prefix + (EobCode(|st.pending|) + Raws(TailBits(st.pending)));
    }
  }

  /** A block is added at the end, and its prefix is what is sent for it at once. */
  lemma {:induction false} OpenSends(st: EobState, code: BlockCode)
    requires ValidState(st) && Settled(st) && ValidCode(code)
    ensures Blocks(Opened(st, code)) == Blocks(st) + [code]
    ensures Sent(Opened(st, code)) == (if code.prefix == [] then Sent(st) else Sent(Flushed(st))) + code.prefix
  {
    hide EobCode, TailBits, AllItems, AllCodes;
    var before := if code.prefix == [] then st else Flushed(st);
    FlushSends(st);
    ItemsAppend(before.groups, if code.eob then Run([code]) else Single(code));
    if code.eob {
      assert AllCodes(before.groups) + (before.pending + [code]) == AllCodes(before.groups) + before.pending + [code];
    } else {
      assert before.pending == [];
      assert AllCodes(before.groups) + [code] + [] == AllCodes(before.groups) + [] + [code];
    }
  }

  lemma {:induction false} AddKeepsBlocks(st: EobState, code: BlockCode)
    requires ValidState(st) && Settled(st) && ValidCode(code)
    ensures Blocks(Added(st, code)) == Blocks(st) + [code]
  {
    hide TailBits, Sent, AllItems, AllCodes;
    OpenSends(st, code);
    FlushSends(Opened(st, code));
  }

  /** All blocks one after the other, and the last run sent. */
  function AddedAll(codes: seq<BlockCode>): (st: EobState)
    requires forall i :: 0 <= i < |codes| ==> ValidCode(codes[i])
    ensures ValidState(st) && Settled(st)
  {
    TailBitsNone();
    if codes == [] then EobState([], [])
    else
      var n := |codes| - 1;
      Added(AddedAll(codes[..n]), codes[n])
  }

  /** The whole scan as it is sent. */
  function ScanItems(codes: seq<BlockCode>): seq<Item>
    requires forall i :: 0 <= i < |codes| ==> ValidCode(codes[i])
  {
    Sent(Flushed(AddedAll(codes)))
  }

  lemma {:induction false} AddedAllKeepsBlocks(codes: seq<BlockCode>)
    requires forall i :: 0 <= i < |codes| ==> ValidCode(codes[i])
    ensures Blocks(AddedAll(codes)) == codes
  {
    hide Added;
    if codes != [] {
      var n := |codes| - 1;
      AddedAllKeepsBlocks(codes[..n]);
      AddKeepsBlocks(AddedAll(codes[..n]), codes[n]);
    }
  }

  /** What is sent for a scan: its blocks in order, in valid groups, each prefix, run
      length and correction bit once. */
  lemma {:induction false} ScanItemsAreGroups(codes: seq<BlockCode>)
    requires forall i :: 0 <= i < |codes| ==> ValidCode(codes[i])
    ensures var groups := Flushed(AddedAll(codes)).groups;
            && (forall i :: 0 <= i < |groups| ==> ValidGroup(groups[i]))
            && AllCodes(groups) == codes && ScanItems(codes) == AllItems(groups)
  {
    hide Added, AllItems, AllCodes, AddedAll, TailBits;
    AddedAllKeepsBlocks(codes);
    FlushSends(AddedAll(codes));
  }

  // ----- runs are as long as they can be

  /** The counter is at its limit, or the correction bits would not have room for those of
      another block in their 1000. */
  predicate Full(codes: seq<BlockCode>) {
    |codes| == 0x7FFF || |TailBits(codes)| + 63 > 1000
  }

  /** The next blocks could not have joined the run. */
  predicate EndedRightly(group: Group, next: seq<BlockCode>) {
    group.Run? && next != [] && next[0].prefix == [] ==> Full(group.codes)
  }

  ghost predicate Maximal(groups: seq<Group>) {
    forall i :: 0 <= i < |groups| - 1 && groups[i + 1].Run? ==> EndedRightly(groups[i], groups[i + 1].codes)
  }

  ghost predicate StaysMaximal(st: EobState) {
    && Maximal(st.groups)
    && (st.groups != [] && st.pending != [] ==> EndedRightly(st.groups[|st.groups| - 1], st.pending))
    && (st.groups != [] && st.pending == [] && st.groups[|st.groups| - 1].Run? ==> Full(st.groups[|st.groups| - 1].codes))
  }

  lemma {:induction false} FlushStaysMaximal(st: EobState)
    requires ValidState(st) && StaysMaximal(st)
    ensures Maximal(Flushed(st).groups)
    ensures Flushed(st).groups != [] && Flushed(st).groups[|Flushed(st).groups| - 1].Run? && st.pending != [] ==>
              Flushed(st).groups[|Flushed(st).groups| - 1] == Run(st.pending)
  {
    hide Full, TailBits;
    var groups := Flushed(st).groups;
    forall i | 0 <= i < |groups| - 1 && groups[i + 1].Run?
      ensures EndedRightly(groups[i], groups[i + 1].codes)
    {
      if st.pending != [] && i + 1 == |st.groups| {
        assert groups[i] == st.groups[i];
      } else {
        assert groups[i] == st.groups[i] && groups[i + 1] == st.groups[i + 1];
      }
    }
  }

  lemma {:induction false} OpenStaysMaximal(st: EobState, code: BlockCode)
    requires ValidState(st) && Settled(st) && ValidCode(code) && StaysMaximal(st)
    ensures StaysMaximal(Opened(st, code)) && (code.eob <==> Opened(st, code).pending != [])
  {
    FlushStaysMaximal(st);
    hide Full, TailBits;
    var before := if code.prefix == [] then st else Flushed(st);
    var after := Opened(st, code);
    if !code.eob {
      forall i | 0 <= i < |after.groups| - 1 && after.groups[i + 1].Run?
        ensures EndedRightly(after.groups[i], after.groups[i + 1].codes)
      {
        assert after.groups[i] == before.groups[i] && after.groups[i + 1] == before.groups[i + 1];
      }
    } else if st.pending != [] && code.prefix == [] {
      assert after.pending[0] == st.pending[0];
    }
  }

  lemma {:induction false} AddStaysMaximal(st: EobState, code: BlockCode)
    requires ValidState(st) && Settled(st) && ValidCode(code) && StaysMaximal(st)
    ensures StaysMaximal(Added(st, code))
  {
    OpenStaysMaximal(st, code);
    var open := Opened(st, code);
    if !Settled(open) {
      FlushStaysMaximal(open);
      TailBitsNone();
    }
  }

  /** A run ends only before a block with symbols of its own, at a block without an end, or
      when it is full. */
  lemma {:induction false} RunsAreMaximal(codes: seq<BlockCode>)
    requires forall i :: 0 <= i < |codes| ==> ValidCode(codes[i])
    ensures Maximal(Flushed(AddedAll(codes)).groups)
  {
    AddedStayMaximal(codes);
    FlushStaysMaximal(AddedAll(codes));
  }

  lemma {:induction false} AddedStayMaximal(codes: seq<BlockCode>)
    requires forall i :: 0 <= i < |codes| ==> ValidCode(codes[i])
    ensures StaysMaximal(AddedAll(codes))
  {
    hide Added;
    if codes != [] {
      var n := |codes| - 1;
      AddedStayMaximal(codes[..n]);
      AddStaysMaximal(AddedAll(codes[..n]), codes[n]);
    }
  }
}
