/** The two bit writers: the lazily emptied 64-bit buffer of the sequential Huffman
    coder (jchuff.c) and the 24-bit buffer of the progressive one (jcphuff.c). */
module BitWriters {
  import opened Shifts
  import opened ProbabilityTable
  import opened ByteCode
  import opened BitStrings
  import opened BitPacking

  const WORD := 64
  const FLUSHABLE := 57

  /** A size_t of 64 bits. */
  function Word(v: nat): (w: nat)
    ensures w < Pow2(WORD)
  {
    v % Pow2(WORD)
  }

  lemma {:induction false} OneByte(v: nat, n: nat, raw: seq<Byte>)
    requires n >= 8
    ensures var c := Shr(v, n - 8) % 256;
            ByteBits(raw + [c]) + BitsOf(v, n - 8) == ByteBits(raw) + BitsOf(v, n)
  {
    hide Shl, Shr, BitsOf, ByteBits;
    var c := Shr(v, n - 8) % 256;
    ByteBitsAppend(raw, c);
    BitsSplit(v, n, n - 8);
    Pow2Of8();
    BitsOfRemainder(Shr(v, n - 8), 8, 8);
  }

  lemma {:induction false} MoreBits(v: nat, n: nat, c: nat, s: nat)
    requires c < Pow2(s) && n + s <= WORD
    ensures BitsOf(Word(Shl(v, s) + c), n + s) == BitsOf(v, n) + BitsOf(c, s)
  {
    BitsOfRemainder(Shl(v, s) + c, WORD, n + s);
    BitsShifted(v, n, c, s);
  }

  /** The flushed word has only 64 bits: whatever was above them reads as zeros. */
  lemma {:induction false} TooManyBits(v: nat, n: nat)
    requires FLUSHABLE <= n
    ensures BitsOf(Word(Shl(v, 7) + 0x7F), n + 7) == Zeros(n - FLUSHABLE) + BitsOf(v, FLUSHABLE) + Ones(7)
  {
    SevenOnes();
    var x := Word(Shl(v, 7) + 0x7F);
    MoreBits(v, FLUSHABLE, 0x7F, 7);
    hide BitsOf, Shl, Pow2;
    BitsSplit(x, n + 7, WORD);
    ShrSmall(x, WORD);
    BitsOfZero(n - FLUSHABLE);
  }

  lemma {:induction false} SevenOnes()
    ensures 0x7F < Pow2(7) && BitsOf(0x7F, 7) == Ones(7)
  {
    Pow2Double(7);
    Pow2Of8();
    assert BitsOf(3, 2) == [1, 1];
    assert BitsOf(15, 4) == [1, 1, 1, 1];
    assert BitsOf(63, 6) == [1, 1, 1, 1, 1, 1];
  }

  lemma {:induction false} ShrSmall(v: nat, n: nat)
    requires v < Pow2(n)
    ensures Shr(v, n) == 0
  {
    if n > 0 {
      ShrSmall(v / 2, n - 1);
    }
  }

  lemma {:induction false} BitsOfZero(n: nat)
    ensures BitsOf(0, n) == Zeros(n)
  {
    if n > 0 {
      BitsOfZero(n - 1);
    }
  }

  /** Seven ones behind the bits, cut to whole bytes, are the padding. */
  lemma {:induction false} OnesPad(bits: seq<Bit>, whole: seq<Bit>, rest: seq<Bit>)
    requires whole + rest == bits + Ones(7) && |rest| < 8 && |whole| % 8 == 0
    ensures whole == Padded(bits)
  {
    assert whole == (bits + Ones(7))[..|whole|];
  }

  /** The bits that do not fit beside the seven ones. */
  function Lost(pending: nat): nat {
    if pending > FLUSHABLE then pending - FLUSHABLE else 0
  }

  /** What the segment holds when `pending` bits are flushed. */
  function KeptOf(bits: seq<Bit>, pending: nat): seq<Bit>
    requires pending <= |bits|
  {
    var first, lost := |bits| - pending, Lost(pending);
    bits[..first] + Zeros(lost) + bits[first + lost..]
  }

  class LazyWriter {
    var putBuffer: nat
    var putBits: nat
    var output: seq<Byte>
    ghost var raw: seq<Byte>     // the bytes emitted, unstuffed
    ghost var bits: seq<Bit>     // all bits put so far

    ghost predicate Tracking()
      reads this
    {
      && putBuffer < Pow2(WORD) && output == Stuff(raw)
      && ByteBits(raw) + BitsOf(putBuffer, putBits) == bits
    }

    ghost predicate Valid()
      reads this
    {
      Tracking() && putBits < WORD
    }

    constructor ()
      ensures Valid() && bits == [] && putBits == 0
    {
      putBuffer, putBits, output, raw, bits := 0, 0, [], [], [];
    }

    method EmitByte()
      requires Tracking() && putBits >= 8
      modifies `putBits, `output, `raw
      ensures Tracking() && putBits == old(putBits) - 8
    {
      hide Shl, Shr, BitsOf, ByteBits, Stuff;
      OneByte(putBuffer, putBits, raw);
      putBits := putBits - 8;
      var c := Shr(putBuffer, putBits) % 256;
      StuffByte(raw, c);
      output := output + [c];
      if c == 0xFF {
        output := output + [0];
      }
      raw := raw + [c];
    }

    /** The source's `|` puts the code into bits the shift has cleared. */
    method PutBits(code: nat, size: nat)
      requires Tracking() && code < Pow2(size) && putBits + size <= WORD
      modifies `putBits, `putBuffer, `bits
      ensures Tracking() && putBits == old(putBits) + size && bits == old(bits) + BitsOf(code, size)
    {
      hide Shl, Shr, BitsOf, ByteBits, Stuff, Pow2;
      MoreBits(putBuffer, putBits, code, size);
      putBits := putBits + size;
      putBuffer := Word(Shl(putBuffer, size) + code);
      bits := bits + BitsOf(code, size);
    }

    method CheckBuf(limit: nat)
      requires Valid() && (limit == 47 || limit == 31)
      modifies `putBits, `output, `raw
      ensures Valid() && putBits == if old(putBits) > limit then old(putBits) - (limit + 1) else old(putBits)
    {
      hide Shl, BitsOf, ByteBits, Stuff;
      if putBits > limit {
        for i := 0 to (limit + 1) / 8
          invariant Tracking() && putBits == old(putBits) - 8 * i
        {
          EmitByte();
        }
      }
    }

    method EmitBits(code: nat, size: nat)
      requires Valid() && size <= 16 && code < Pow2(size)
      modifies this
      ensures Valid() && bits == old(bits) + BitsOf(code, size)
      ensures putBits == size + if old(putBits) > 47 then old(putBits) - 48 else old(putBits)
    {
      hide BitsOf, ByteBits, Stuff, Pow2;
      CheckBuf(47);
      PutBits(code, size);
    }

    /** A code with the low `nbits` bits of `value` behind it. */
    method EmitCode(code: nat, size: nat, value: int, nbits: nat)
      requires Valid() && size <= 16 && nbits <= 16 && code < Pow2(size)
      modifies this
      ensures Valid() && bits == old(bits) + BitsOf(code, size) + BitsOf(value % Pow2(nbits), nbits)
      ensures putBits == size + nbits + if old(putBits) > 31 then old(putBits) - 32 else old(putBits)
    {
      hide BitsOf, ByteBits, Stuff, Pow2;
      var temp2 := value % Pow2(nbits);
      CheckBuf(31);
      PutBits(code, size);
      PutBits(temp2, nbits);
    }

    method PutSevenOnes()
      requires Valid()
      modifies `putBits, `putBuffer, `bits
      ensures Tracking() && old(putBits) <= |old(bits)| && bits == KeptOf(old(bits), old(putBits)) + Ones(7)
    {
      hide Shl, Shr, BitsOf, ByteBits, Stuff, Pow2, KeptOf;
      if putBits <= FLUSHABLE {
        SevenOnes();
        AllKept(bits, putBits);
        PutBits(0x7F, 7);
      } else {
        KeptBits(ByteBits(raw), putBuffer, putBits, bits);
        ghost var kept := KeptOf(bits, putBits);
        putBits := putBits + 7;
        putBuffer := Word(Shl(putBuffer, 7) + 0x7F);
        bits := kept + Ones(7);
      }
    }

    /** End of the segment. With more than 57 bits in the buffer the oldest ones are
        written as zeros, so the output is right exactly if they are zeros. */
    method FlushBits()
      requires Valid()
      modifies this
      ensures Valid() && putBits == 0 && old(putBits) <= |old(bits)|
      ensures Packs(output, KeptOf(old(bits), old(putBits)))
      ensures Packs(output, old(bits)) <==>
                forall i :: |old(bits)| - old(putBits) <= i < |old(bits)| - old(putBits) + Lost(old(putBits)) ==> old(bits)[i] == 0
    {
      hide Shl, Shr, BitsOf, ByteBits, Stuff, Padded, Pow2;
      ghost var all, lost, first := bits, Lost(putBits), |bits| - putBits;
      PutSevenOnes();
      ghost var kept := KeptOf(old(bits), old(putBits));
      while putBits >= 8
        invariant Tracking() && bits == kept + Ones(7)
        decreases putBits
      {
        EmitByte();
      }
      OnesPad(kept, ByteBits(raw), BitsOf(putBuffer, putBits));
      assert Packs(output, kept);
      if Packs(output, all) {
        PackedDetermines(output, kept, all);
      }
      SameWhereLost(all, kept, first, lost);
      EmptyBuffer();
      putBuffer, putBits, bits := 0, 0, ByteBits(raw);
    }
  }

  lemma {:induction false} AllKept(bits: seq<Bit>, n: nat)
    requires n <= |bits| && n <= FLUSHABLE
    ensures KeptOf(bits, n) == bits
  {
  }

  lemma {:induction false} KeptBits(before: seq<Bit>, v: nat, n: nat, bits: seq<Bit>)
    requires bits == before + BitsOf(v, n) && FLUSHABLE <= n
    ensures before + BitsOf(Word(Shl(v, 7) + 0x7F), n + 7) == KeptOf(bits, n) + Ones(7)
  {
    TooManyBits(v, n);
    LastBits(v, n, FLUSHABLE);
    hide BitsOf, Shl, Pow2;
    var pending := BitsOf(v, n);
    assert bits[..|before|] == before;
    assert bits[|before| + (n - FLUSHABLE)..] == pending[n - FLUSHABLE..];
  }

  lemma {:induction false} LastBits(v: nat, n: nat, m: nat)
    requires m <= n
    ensures BitsOf(v, n)[n - m..] == BitsOf(v, m)
  {
    BitsSplit(v, n, m);
  }

  lemma {:induction false} SameWhereLost(all: seq<Bit>, kept: seq<Bit>, first: nat, lost: nat)
    requires first + lost <= |all| && kept == all[..first] + Zeros(lost) + all[first + lost..]
    ensures kept == all <==> forall i :: first <= i < first + lost ==> all[i] == 0
  {
    if kept == all {
      forall i | first <= i < first + lost
        ensures all[i] == 0
      {
        assert kept[i] == Zeros(lost)[i - first];
      }
    }
  }

  lemma {:induction false} EmptyBuffer()
    ensures 0 < Pow2(WORD) && BitsOf(0, 0) == []
  {
  }

  // ----- the progressive coder's writer

  /** The valid bits of the 24-bit buffer are left-justified, over zeros. */
  function Justified(v: nat, n: nat): seq<Bit>
    requires n <= 24
  {
    BitsOf(v, 24)[..n]
  }

  predicate Clear(v: nat, n: nat)
    requires n <= 24
  {
    BitsOf(v, 24 - n) == Zeros(24 - n)
  }

  lemma {:induction false} AlignedCode(c: nat, s: nat, k: nat)
    requires c < Pow2(s)
    ensures Shl(c, k) < Pow2(s + k) && BitsOf(Shl(c, k), s + k) == BitsOf(c, s) + Zeros(k)
  {
    hide BitsOf, Shl;
    ShlShl(1, s, k);
    ShlMonotone(Pow2(s), c, k);
    BitsShifted(c, s, 0, k);
    BitsOfZero(k);
  }

  lemma {:induction false} WordBits(v: nat, k: nat)
    requires k <= 24
    ensures BitsOf(Word(v), 24) == BitsOf(v, 24) && BitsOf(Word(v), k) == BitsOf(v, 24)[24 - k..]
  {
    hide BitsOf, Shl;
    BitsOfRemainder(v, WORD, 24);
    BitsOfRemainder(v, WORD, k);
    LastBits(v, 24, k);
  }

  lemma {:induction false} MergeWord(v: nat, n: nat, c: nat, s: nat)
    requires n + s <= 24 && c < Pow2(s) && BitsOf(v, 24 - n) == Zeros(24 - n)
    ensures var k := 24 - n - s; var merged := Shl(c, k) + v;
            && BitsOf(Word(merged), 24) == BitsOf(v, 24)[..n] + (BitsOf(c, s) + Zeros(k))
            && BitsOf(Word(merged), k) == BitsOf(Word(merged), 24)[24 - k..]
  {
    hide BitsOf, Shl, Word, Pow2;
    var k := 24 - n - s;
    AlignedCode(c, s, k);
    BitsAdded(v, Shl(c, k), 24, 24 - n);
    WordBits(Shl(c, k) + v, k);
  }

  lemma {:induction false} MergeBits(v: nat, n: nat, c: nat, s: nat)
    requires n + s <= 24 && c < Pow2(s) && Clear(v, n)
    ensures var merged := Word(Shl(c, 24 - n - s) + v);
            Justified(merged, n + s) == Justified(v, n) + BitsOf(c, s) && Clear(merged, n + s)
  {
    hide BitsOf, Shl, Word, Pow2;
    var k := 24 - n - s;
    MergeWord(v, n, c, s);
    JustifiedParts(BitsOf(Word(Shl(c, k) + v), 24), BitsOf(v, 24)[..n], BitsOf(c, s), k);
  }

  lemma {:induction false} JustifiedParts(word: seq<Bit>, before: seq<Bit>, code: seq<Bit>, k: nat)
    requires word == before + (code + Zeros(k))
    ensures word[..|word| - k] == before + code && word[|word| - k..] == Zeros(k)
  {
  }

  lemma {:induction false} ShiftOutByte(v: nat, n: nat)
    requires 8 <= n <= 24 && Clear(v, n)
    ensures var c, next := Shr(v, 16) % 256, Word(Shl(v, 8));
            Justified(v, n) == BitsOf(c, 8) + Justified(next, n - 8) && Clear(next, n - 8)
  {
    hide BitsOf, Shr, Shl;
    var next := Word(Shl(v, 8));
    BitsSplit(v, 24, 16);
    BitsOfRemainder(Shr(v, 16), 8, 8);
    Pow2Of8();
    BitsOfZero(8);
    BitsShifted(v, 16, 0, 8);
    BitsShifted(v, 24 - n, 0, 8);
    BitsOfRemainder(Shl(v, 8), WORD, 24);
    BitsOfRemainder(Shl(v, 8), WORD, 32 - n);
    assert Zeros(24 - n) + Zeros(8) == Zeros(32 - n);
  }

  lemma {:induction false} NothingJustified()
    ensures Clear(0, 0) && Justified(0, 0) == []
  {
    BitsOfZero(24);
  }

  class EagerWriter {
    var putBuffer: nat
    var putBits: nat
    var output: seq<Byte>
    ghost var raw: seq<Byte>
    ghost var bits: seq<Bit>

    ghost predicate Tracking()
      reads this
    {
      && putBits <= 24 && Clear(putBuffer, putBits) && output == Stuff(raw)
      && ByteBits(raw) + Justified(putBuffer, putBits) == bits
    }

    ghost predicate Valid()
      reads this
    {
      Tracking() && putBits < 8
    }

    constructor ()
      ensures Valid() && bits == []
    {
      putBuffer, putBits, output, raw, bits := 0, 0, [], [], [];
      new;
      NothingJustified();
    }

    /** Fails on a symbol without a code. */
    method EmitBits(code: nat, size: nat) returns (ok: bool)
      requires Valid() && size <= 16
      modifies this
      ensures Valid() && (ok <==> size != 0)
      ensures bits == if ok then old(bits) + BitsOf(code % Pow2(size), size) else old(bits)
    {
      hide Shl, Shr, BitsOf, ByteBits, Stuff, Justified, Clear, Pow2;
      if size == 0 {
        return false;
      }
      var c := code % Pow2(size);
      MergeBits(putBuffer, putBits, c, size);
      putBits := putBits + size;
      putBuffer := Word(Shl(c, 24 - putBits) + putBuffer);
      bits := bits + BitsOf(c, size);
      while putBits >= 8
        invariant Tracking() && bits == old(bits) + BitsOf(c, size)
        decreases putBits
      {
        EmitByte();
      }
      ok := true;
    }

    method EmitByte()
      requires Tracking() && putBits >= 8
      modifies `putBits, `putBuffer, `output, `raw
      ensures Tracking() && putBits == old(putBits) - 8
    {
      hide Shl, Shr, BitsOf, ByteBits, Stuff, Justified, Clear, Pow2;
      ShiftOutByte(putBuffer, putBits);
      var c := Shr(putBuffer, 16) % 256;
      StuffByte(raw, c);
      ByteBitsAppend(raw, c);
      output := output + [c];
      if c == 0xFF {
        output := output + [0];
      }
      raw := raw + [c];
      putBuffer := Word(Shl(putBuffer, 8));
      putBits := putBits - 8;
    }

    method FlushBits()
      requires Valid()
      modifies this
      ensures Valid() && putBits == 0 && Packs(output, old(bits))
    {
      hide Shl, Shr, BitsOf, ByteBits, Stuff, Clear, Pow2, Padded;
      ghost var all := bits;
      SevenOnes();
      var _ := EmitBits(0x7F, 7);
      OnesPad(all, ByteBits(raw), Justified(putBuffer, putBits));
      assert Packs(output, all);
      NothingJustified();
      putBuffer, putBits, bits := 0, 0, ByteBits(raw);
    }
  }

  // ----- both on the same codes

  /** How the lazy writer takes a code word and its value bits: the word alone, one after
      the other (a DC difference), or both at once (an AC coefficient). */
  datatype How = Alone | Apart | Together

  datatype Put = Put(code: nat, size: nat, value: int, nbits: nat, how: How)

  predicate ValidPut(p: Put) {
    1 <= p.size <= 16 && p.nbits <= 16 && p.code < Pow2(p.size) && (p.how.Alone? ==> p.nbits == 0)
  }

  function BitsPut(puts: seq<Put>): seq<Bit> {
    if puts == [] then []
    else
      var p := puts[|puts| - 1];
      BitsPut(puts[..|puts| - 1]) + BitsOf(p.code, p.size) + BitsOf(p.value % Pow2(p.nbits), p.nbits)
  }

  lemma {:induction false} BitsPutNext(puts: seq<Put>, i: nat)
    requires i < |puts|
    ensures var p := puts[i];
            BitsPut(puts[..i + 1]) == BitsPut(puts[..i]) + BitsOf(p.code, p.size) + BitsOf(p.value % Pow2(p.nbits), p.nbits)
  {
    assert puts[..i + 1][..i] == puts[..i];
  }

  /** How many bits wait in the lazy writer's buffer after these codes: it makes room for
      16 bits, or for 32, before it puts any. */
  function Waiting(puts: seq<Put>): nat {
    if puts == [] then 0
    else
      WaitingAfter(Waiting(puts[..|puts| - 1]), puts[|puts| - 1])
  }

  function WaitingAfter(before: nat, p: Put): nat {
    match p.how
    case Alone => p.size + Drained(before, 47)
    case Apart => p.nbits + Drained(p.size + Drained(before, 47), 47)
    case Together => p.size + p.nbits + Drained(before, 31)
  }

  function Drained(waiting: nat, limit: nat): nat {
    if waiting > limit then waiting - limit - 1 else waiting
  }

  lemma {:induction false} WaitingNext(puts: seq<Put>, i: nat)
    requires i < |puts|
    ensures Waiting(puts[..i + 1]) == WaitingAfter(Waiting(puts[..i]), puts[i])
  {
    assert puts[..i + 1][..i] == puts[..i];
  }

  /** The final flush loses no one bit: the waiting bits it has no room for are zeros. */
  predicate NothingLost(puts: seq<Put>) {
    var bits, w := BitsPut(puts), Waiting(puts);
    forall i :: 0 <= i < |bits| && |bits| - w <= i < |bits| - w + Lost(w) ==> bits[i] == 0
  }

  /** With at most 57 bits waiting there is room for all. */
  lemma {:induction false} RoomForAll(puts: seq<Put>)
    requires Waiting(puts) <= FLUSHABLE
    ensures NothingLost(puts)
  {
  }

  method WriteLazily(puts: seq<Put>) returns (output: seq<Byte>, pending: nat)
    requires forall i :: 0 <= i < |puts| ==> ValidPut(puts[i])
    ensures pending == Waiting(puts) < WORD
    ensures Packs(output, BitsPut(puts)) <==> NothingLost(puts)
  {
    hide BitsOf, BitsPut, LazyWriter.Valid, Packs, Pow2, Waiting;
    var writer := new LazyWriter();
    BitsPutNone();
    WaitingNone();
    for i := 0 to |puts|
      invariant fresh(writer) && writer.Valid() && writer.bits == BitsPut(puts[..i]) && writer.putBits == Waiting(puts[..i])
    {
      BitsPutNext(puts, i);
      WaitingNext(puts, i);
      match puts[i].how
      case Alone =>
        NoValueBits(puts[i]);
        writer.EmitBits(puts[i].code, puts[i].size);
      case Apart =>
        writer.EmitBits(puts[i].code, puts[i].size);
        writer.EmitBits(puts[i].value % Pow2(puts[i].nbits), puts[i].nbits);
      case Together =>
        writer.EmitCode(puts[i].code, puts[i].size, puts[i].value, puts[i].nbits);
    }
    assert puts[..|puts|] == puts;
    pending := writer.putBits;
    BelowWord(writer);
    writer.FlushBits();
    output := writer.output;
  }

  lemma {:induction false} BelowWord(writer: LazyWriter)
    requires writer.Valid()
    ensures writer.putBits < WORD
  {
  }

  lemma {:induction false} WaitingNone()
    ensures Waiting([]) == 0
  {
  }

  lemma {:induction false} BitsPutNone()
    ensures BitsPut([]) == []
  {
  }

  lemma {:induction false} NoValueBits(p: Put)
    requires p.nbits == 0
    ensures BitsOf(p.value % Pow2(p.nbits), p.nbits) == []
  {
  }

  method WriteEagerly(puts: seq<Put>) returns (output: seq<Byte>)
    requires forall i :: 0 <= i < |puts| ==> ValidPut(puts[i])
    ensures Packs(output, BitsPut(puts))
  {
    hide BitsOf, BitsPut, EagerWriter.Valid, Packs, Shl;
    var writer := new EagerWriter();
    BitsPutNone();
    for i := 0 to |puts|
      invariant fresh(writer) && writer.Valid() && writer.bits == BitsPut(puts[..i])
    {
      BitsPutNext(puts, i);
      Remainder(puts[i].code, Pow2(puts[i].size));
      Remainder(puts[i].value % Pow2(puts[i].nbits), Pow2(puts[i].nbits));
      var _ := writer.EmitBits(puts[i].code, puts[i].size);
      if puts[i].nbits != 0 {
        var _ := writer.EmitBits(puts[i].value % Pow2(puts[i].nbits), puts[i].nbits);
      } else {
        NoValueBits(puts[i]);
      }
    }
    assert puts[..|puts|] == puts;
    writer.FlushBits();
    output := writer.output;
  }

  lemma {:induction false} Remainder(v: nat, p: nat)
    requires v < p
    ensures v % p == v
  {
  }

  /** The two writers produce the same bytes, the segment that packs the codes, exactly if
      the lazy one loses nothing in its final flush. */
  method WritersAgree(puts: seq<Put>) returns (lazy: seq<Byte>, eager: seq<Byte>)
    requires forall i :: 0 <= i < |puts| ==> ValidPut(puts[i])
    ensures lazy == eager <==> NothingLost(puts)
    ensures Packs(eager, BitsPut(puts))
  {
    hide NothingLost, Packs, BitsPut;
    var pending;
    lazy, pending := WriteLazily(puts);
    eager := WriteEagerly(puts);
    if Packs(lazy, BitsPut(puts)) {
      PackedUnique(lazy, eager, BitsPut(puts));
    }
  }

  /** The limit of 57 bits is real: these four code words leave 63 bits in the buffer, and
      the first loses its leading one. */
  lemma {:induction false} FlushLosesBits(puts: seq<Put>)
    requires puts == [Put(0x8000, 16, 0, 0, Apart), Put(0, 16, 0, 0, Alone), Put(0, 15, 0, 0, Apart), Put(0, 16, 0, 0, Alone)]
    ensures forall j :: 0 <= j < |puts| ==> ValidPut(puts[j])
    ensures Waiting(puts) == 63 && !NothingLost(puts)
  {
    ValidPuts(puts);
    hide BitsOf, BitsPut, Waiting, Pow2, ValidPut;
    FourWords(puts);
    FirstWord(puts);
    var first := BitsOf(puts[0].code, puts[0].size);
    LeadingOne();
    assert first[0] == 1 && BitsPut(puts)[0] == first[0];
  }

  lemma {:induction false} ValidPuts(puts: seq<Put>)
    requires puts == [Put(0x8000, 16, 0, 0, Apart), Put(0, 16, 0, 0, Alone), Put(0, 15, 0, 0, Apart), Put(0, 16, 0, 0, Alone)]
    ensures forall j :: 0 <= j < |puts| ==> ValidPut(puts[j])
  {
    LeadingOne();
    hide Pow2, BitsOf;
  }

  /** How much is put, and how much of it waits. */
  lemma {:induction false} FourWords(puts: seq<Put>)
    requires |puts| == 4 && (forall j :: 0 <= j < 4 ==> puts[j].nbits == 0 && !puts[j].how.Together?)
    requires puts[0].size == puts[1].size == puts[3].size == 16 && puts[2].size == 15 && puts[3].how.Alone?
    ensures |BitsPut(puts)| == 63 && Waiting(puts) == 63
  {
    hide BitsOf, BitsPut, Waiting, Pow2;
    BitsPutNone();
    WaitingNone();
    assert puts[..0] == [] && puts[..4] == puts;
    OneWord(puts, 0);
    OneWord(puts, 1);
    OneWord(puts, 2);
    OneWord(puts, 3);
  }

  lemma {:induction false} OneWord(puts: seq<Put>, i: nat)
    requires i < |puts| && puts[i].nbits == 0 && !puts[i].how.Together?
    requires Waiting(puts[..i]) + puts[i].size <= 63 && Waiting(puts[..i]) <= 47
    requires puts[i].how.Apart? ==> Waiting(puts[..i]) + puts[i].size <= 47
    ensures |BitsPut(puts[..i + 1])| == |BitsPut(puts[..i])| + puts[i].size
    ensures Waiting(puts[..i + 1]) == Waiting(puts[..i]) + puts[i].size
  {
    BitsPutNext(puts, i);
    WaitingNext(puts, i);
    hide BitsPut, Waiting, BitsOf, Pow2;
  }

  lemma {:induction false} FirstWord(puts: seq<Put>)
    requires puts != []
    ensures BitsOf(puts[0].code, puts[0].size) <= BitsPut(puts)
  {
    var n := |puts| - 1;
    BitsPutNext(puts, n);
    assert puts[..n + 1] == puts;
    hide BitsPut, BitsOf, Pow2;
    if n > 0 {
      FirstWord(puts[..n]);
    } else {
      BitsPutNone();
      assert puts[..0] == [];
    }
  }

  lemma {:induction false} LeadingOne()
    ensures 0x8000 < Pow2(16) && BitsOf(0x8000, 16)[0] == 1
    ensures forall n :: Pow2(n) > 0
  {
    ShlConstants(1);
    FirstOfShifted(15);
  }

  lemma {:induction false} FirstOfShifted(n: nat)
    ensures BitsOf(Shl(1, n), n + 1)[0] == 1
  {
    BitsShifted(1, 1, 0, n);
    assert BitsOf(1, 1) == [1];
    hide BitsOf;
    assert Shl(1, n) + 0 == Shl(1, n);
  }
}
