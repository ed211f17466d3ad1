/** The probability estimation state machine shared by the arithmetic encoder and
    decoder: Table D.2 of ITU-T T.81, plus entry 113 for a fixed 0.5 estimate. */
module ProbabilityTable {

  datatype RawEntry = Entry(qe: int, nextLps: int, nextMps: int, switchMps: int)

  /** The bounds both coders rely on. */
  type Entry = e: RawEntry |
      && 1 <= e.qe <= 0x5b12
      && 0 <= e.nextLps <= 113
      && 0 <= e.nextMps <= 113
      && 0 <= e.switchMps <= 1
    witness Entry(0x5a1d, 113, 113, 0)

  type Bit = b: int | 0 <= b <= 1

  type Index = i: int | 0 <= i <= 113

  /** A statistics bin: the table index and the more probable symbol, which the
      source keeps in the low seven bits and the top bit of one byte. */
  datatype StatBin = StatBin(index: Index, mps: Bit)

  const Rows0: seq<Entry> := [
    Entry(0x5a1d, 1, 1, 1),
    Entry(0x2586, 14, 2, 0),
    Entry(0x1114, 16, 3, 0),
    Entry(0x080b, 18, 4, 0),
    Entry(0x03d8, 20, 5, 0),
    Entry(0x01da, 23, 6, 0),
    Entry(0x00e5, 25, 7, 0),
    Entry(0x006f, 28, 8, 0),
    Entry(0x0036, 30, 9, 0),
    Entry(0x001a, 33, 10, 0),
    Entry(0x000d, 35, 11, 0),
    Entry(0x0006, 9, 12, 0),
    Entry(0x0003, 10, 13, 0),
    Entry(0x0001, 12, 13, 0),
    Entry(0x5a7f, 15, 15, 1),
    Entry(0x3f25, 36, 16, 0)
  ]

  const Rows16: seq<Entry> := [
    Entry(0x2cf2, 38, 17, 0),
    Entry(0x207c, 39, 18, 0),
    Entry(0x17b9, 40, 19, 0),
    Entry(0x1182, 42, 20, 0),
    Entry(0x0cef, 43, 21, 0),
    Entry(0x09a1, 45, 22, 0),
    Entry(0x072f, 46, 23, 0),
    Entry(0x055c, 48, 24, 0),
    Entry(0x0406, 49, 25, 0),
    Entry(0x0303, 51, 26, 0),
    Entry(0x0240, 52, 27, 0),
    Entry(0x01b1, 54, 28, 0),
    Entry(0x0144, 56, 29, 0),
    Entry(0x00f5, 57, 30, 0),
    Entry(0x00b7, 59, 31, 0),
    Entry(0x008a, 60, 32, 0)
  ]

  const Rows32: seq<Entry> := [
    Entry(0x0068, 62, 33, 0),
    Entry(0x004e, 63, 34, 0),
    Entry(0x003b, 32, 35, 0),
    Entry(0x002c, 33, 9, 0),
    Entry(0x5ae1, 37, 37, 1),
    Entry(0x484c, 64, 38, 0),
    Entry(0x3a0d, 65, 39, 0),
    Entry(0x2ef1, 67, 40, 0),
    Entry(0x261f, 68, 41, 0),
    Entry(0x1f33, 69, 42, 0),
    Entry(0x19a8, 70, 43, 0),
    Entry(0x1518, 72, 44, 0),
    Entry(0x1177, 73, 45, 0),
    Entry(0x0e74, 74, 46, 0),
    Entry(0x0bfb, 75, 47, 0),
    Entry(0x09f8, 77, 48, 0)
  ]

  const Rows48: seq<Entry> := [
    Entry(0x0861, 78, 49, 0),
    Entry(0x0706, 79, 50, 0),
    Entry(0x05cd, 48, 51, 0),
    Entry(0x04de, 50, 52, 0),
    Entry(0x040f, 50, 53, 0),
    Entry(0x0363, 51, 54, 0),
    Entry(0x02d4, 52, 55, 0),
    Entry(0x025c, 53, 56, 0),
    Entry(0x01f8, 54, 57, 0),
    Entry(0x01a4, 55, 58, 0),
    Entry(0x0160, 56, 59, 0),
    Entry(0x0125, 57, 60, 0),
    Entry(0x00f6, 58, 61, 0),
    Entry(0x00cb, 59, 62, 0),
    Entry(0x00ab, 61, 63, 0),
    Entry(0x008f, 61, 32, 0)
  ]

  const Rows64: seq<Entry> := [
    Entry(0x5b12, 65, 65, 1),
    Entry(0x4d04, 80, 66, 0),
    Entry(0x412c, 81, 67, 0),
    Entry(0x37d8, 82, 68, 0),
    Entry(0x2fe8, 83, 69, 0),
    Entry(0x293c, 84, 70, 0),
    Entry(0x2379, 86, 71, 0),
    Entry(0x1edf, 87, 72, 0),
    Entry(0x1aa9, 87, 73, 0),
    Entry(0x174e, 72, 74, 0),
    Entry(0x1424, 72, 75, 0),
    Entry(0x119c, 74, 76, 0),
    Entry(0x0f6b, 74, 77, 0),
    Entry(0x0d51, 75, 78, 0),
    Entry(0x0bb6, 77, 79, 0),
    Entry(0x0a40, 77, 48, 0)
  ]

  const Rows80: seq<Entry> := [
    Entry(0x5832, 80, 81, 1),
    Entry(0x4d1c, 88, 82, 0),
    Entry(0x438e, 89, 83, 0),
    Entry(0x3bdd, 90, 84, 0),
    Entry(0x34ee, 91, 85, 0),
    Entry(0x2eae, 92, 86, 0),
    Entry(0x299a, 93, 87, 0),
    Entry(0x2516, 86, 71, 0),
    Entry(0x5570, 88, 89, 1),
    Entry(0x4ca9, 95, 90, 0),
    Entry(0x44d9, 96, 91, 0),
    Entry(0x3e22, 97, 92, 0),
    Entry(0x3824, 99, 93, 0),
    Entry(0x32b4, 99, 94, 0),
    Entry(0x2e17, 93, 86, 0),
    Entry(0x56a8, 95, 96, 1)
  ]

  const Rows96: seq<Entry> := [
    Entry(0x4f46, 101, 97, 0),
    Entry(0x47e5, 102, 98, 0),
    Entry(0x41cf, 103, 99, 0),
    Entry(0x3c3d, 104, 100, 0),
    Entry(0x375e, 99, 93, 0),
    Entry(0x5231, 105, 102, 0),
    Entry(0x4c0f, 106, 103, 0),
    Entry(0x4639, 107, 104, 0),
    Entry(0x415e, 103, 99, 0),
    Entry(0x5627, 105, 106, 1),
    Entry(0x50e7, 108, 107, 0),
    Entry(0x4b85, 109, 103, 0),
    Entry(0x5597, 110, 109, 0),
    Entry(0x504f, 111, 107, 0),
    Entry(0x5a10, 110, 111, 1),
    Entry(0x5522, 112, 109, 0)
  ]

  const Rows112: seq<Entry> := [
    Entry(0x59eb, 112, 111, 1),
    Entry(0x5a1d, 113, 113, 0)
  ]

  function Table(index: Index): Entry
  {
    if index < 16 then Rows0[index]
    else if index < 32 then Rows16[index - 16]
    else if index < 48 then Rows32[index - 32]
    else if index < 64 then Rows48[index - 48]
    else if index < 80 then Rows64[index - 64]
    else if index < 96 then Rows80[index - 80]
    else if index < 112 then Rows96[index - 96]
    else Rows112[index - 112]
  }

  function Qe(s: StatBin): (qe: int)
    ensures 1 <= qe <= 0x5b12
  {
    Table(s.index).qe
  }

  /** Estimate_after_LPS: the MPS flips when the entry asks for it. */
  function AfterLps(s: StatBin): StatBin {
    var e := Table(s.index);
    StatBin(e.nextLps, (s.mps + e.switchMps) % 2)
  }

  /** Estimate_after_MPS */
  function AfterMps(s: StatBin): StatBin {
    StatBin(Table(s.index).nextMps, s.mps)
  }

  // ----- what the estimator does

  predicate Switches(index: Index) {
    index in {0, 14, 36, 64, 80, 88, 95, 105, 110, 112}
  }

  /** What is to hold of one entry: the MPS makes the estimate smaller, up to entry 13, the
      LPS makes it larger or, from ten entries, exchanges the symbols; the fixed entry stays. */
  predicate EntryOk(i: Index) {
    && (i != 13 && i != 113 ==> Table(Table(i).nextMps).qe < Table(i).qe)
    && (i == 13 || i == 113 ==> Table(i).nextMps == i)
    && (Table(i).switchMps == 1 <==> Switches(i))
    && (!Switches(i) && i != 113 ==> Table(i).qe < Table(Table(i).nextLps).qe)
    && (Switches(i) ==> Table(i).qe >= 0x5570)
    && (i == 113 <==> Table(i).nextLps == 113) && (i == 113 <==> Table(i).nextMps == 113)
    && (0 < i <= 13 ==> Table(i - 1).nextMps == i)
    && (Table(i).qe == 1 <==> i == 13)
  }

  /** Row by row. */
  lemma {:induction false} FirstEntriesOk(i: Index)
    requires i < 16
    ensures EntryOk(i)
  {
  }

  lemma {:induction false} SecondEntriesOk(i: Index)
    requires 16 <= i < 32
    ensures EntryOk(i)
  {
  }

  lemma {:induction false} ThirdEntriesOk(i: Index)
    requires 32 <= i < 48
    ensures EntryOk(i)
  {
  }

  lemma {:induction false} FourthEntriesOk(i: Index)
    requires 48 <= i < 64
    ensures EntryOk(i)
  {
  }

  lemma {:induction false} FifthEntriesOk(i: Index)
    requires 64 <= i < 80
    ensures EntryOk(i)
  {
  }

  lemma {:induction false} SixthEntriesOk(i: Index)
    requires 80 <= i < 96
    ensures EntryOk(i)
  {
  }

  lemma {:induction false} SeventhEntriesOk(i: Index)
    requires 96 <= i < 112
    ensures EntryOk(i)
  {
  }

  lemma {:induction false} LastEntriesOk(i: Index)
    requires 112 <= i
    ensures EntryOk(i)
  {
  }

  lemma {:induction false} EntriesOk(i: Index)
    ensures EntryOk(i)
  {
    if i < 16 {
      FirstEntriesOk(i);
    } else if i < 32 {
      SecondEntriesOk(i);
    } else if i < 48 {
      ThirdEntriesOk(i);
    } else if i < 64 {
      FourthEntriesOk(i);
    } else if i < 80 {
      FifthEntriesOk(i);
    } else if i < 96 {
      SixthEntriesOk(i);
    } else if i < 112 {
      SeventhEntriesOk(i);
    } else {
      LastEntriesOk(i);
    }
  }

  /** After an MPS the LPS is estimated less probable, until the smallest estimate. */
  lemma {:induction false} MpsLowers(s: StatBin)
    ensures AfterMps(s).mps == s.mps
    ensures s.index !in {13, 113} ==> Qe(AfterMps(s)) < Qe(s)
    ensures s.index in {13, 113} ==> AfterMps(s) == s
    ensures s.index == 113 <==> AfterMps(s).index == 113
  {
    EntriesOk(s.index);
    hide Table;
  }

  /** After an LPS it is estimated more probable, or becomes the MPS. */
  lemma {:induction false} LpsRaises(s: StatBin)
    ensures AfterLps(s).mps == if Switches(s.index) then 1 - s.mps else s.mps
    ensures !Switches(s.index) && s.index != 113 ==> Qe(AfterLps(s)) > Qe(s)
    ensures Switches(s.index) ==> Qe(s) >= 0x5570
    ensures s.index == 113 ==> AfterLps(s) == s
    ensures s.index == 113 <==> AfterLps(s).index == 113
  {
    EntriesOk(s.index);
    hide Table;
  }

  /** The state after `n` estimates in a row that follow an MPS. */
  function AfterMpsRun(s: StatBin, n: nat): StatBin {
    if n == 0 then s else AfterMps(AfterMpsRun(s, n - 1))
  }

  const FirstQes: seq<int> := [
    0x5a1d, 0x2586, 0x1114, 0x080b, 0x03d8, 0x01da, 0x00e5,
    0x006f, 0x0036, 0x001a, 0x000d, 0x0006, 0x0003, 0x0001
  ]

  /** A fresh bin goes through the first fourteen entries and stays at the last of them. */
  lemma {:induction false} FreshBinLearns(mps: Bit, n: nat)
    ensures var i := if n <= 13 then n else 13;
            AfterMpsRun(StatBin(0, mps), n) == StatBin(i, mps) && Qe(StatBin(i, mps)) == FirstQes[i]
  {
    var i: nat := if n <= 13 then n else 13;
    if n > 0 {
      FreshBinLearns(mps, n - 1);
      EntriesOk(i);
      EntriesOk(13);
    }
  }

  /** So does any other bin, in the end. */
  lemma {:induction false} EveryBinLearns(s: StatBin, n: nat)
    requires s.index != 113 && n >= Qe(s) - 1
    ensures AfterMpsRun(s, n) == StatBin(13, s.mps)
    decreases n
  {
    MpsLowers(s);
    EntriesOk(s.index);
    hide Table;
    if n > 0 {
      MpsFirst(s, n);
      if s.index != 13 {
        EveryBinLearns(AfterMps(s), n - 1);
      } else {
        EveryBinLearns(s, n - 1);
      }
    }
  }

  lemma {:induction false} MpsFirst(s: StatBin, n: nat)
    requires n > 0
    ensures AfterMpsRun(s, n) == AfterMpsRun(AfterMps(s), n - 1)
  {
    if n > 1 {
      MpsFirst(s, n - 1);
    }
  }

  // ----- as the source keeps it, in bytes

  /** An index, and a flag in the top bit. */
  function Flagged(index: bv8, flag: Bit): bv8 {
    if flag == 1 then index | 0x80 else index
  }

  function Packed(s: StatBin): bv8 {
    Flagged(s.index as bv8, s.mps)
  }

  lemma {:induction false} FlagsCombine(i: bv8, f: Bit, n: bv8, g: Bit)
    requires i & 0x80 == 0 && n & 0x80 == 0
    ensures Flagged(i, f) & 0x7F == i && (f == 1 <==> Flagged(i, f) >> 7 == 1)
    ensures (Flagged(i, f) & 0x80) ^ Flagged(n, g) == Flagged(n, (f + g) % 2)
  {
  }

  lemma {:induction false} IndexFits(i: Index)
    ensures i as bv8 & 0x80 == 0
  {
  }

  /** The source keeps the switch on top of the next index, and combines whole bytes. */
  lemma {:induction false} LpsByte(s: StatBin)
    ensures Packed(AfterLps(s)) == (Packed(s) & 0x80) ^ Flagged(Table(s.index).nextLps as bv8, Table(s.index).switchMps)
  {
    hide Table;
    PackedNext(s.index, s.mps, Table(s.index).nextLps, Table(s.index).switchMps);
    hide Flagged;
  }

  lemma {:induction false} BothParts(s: StatBin)
    ensures Packed(s) & 0x7F == s.index as bv8 && (s.mps == 1 <==> Packed(s) >> 7 == 1)
  {
    PackedNext(s.index, s.mps, 0, 0);
    hide Flagged;
  }

  lemma {:induction false} MpsByte(s: StatBin)
    ensures Packed(AfterMps(s)) == (Packed(s) & 0x80) ^ (Table(s.index).nextMps as bv8)
  {
    hide Table;
    PackedNext(s.index, s.mps, Table(s.index).nextMps, 0);
    OnlyIndex(Table(s.index).nextMps);
    hide Flagged;
  }

  lemma {:induction false} PackedNext(i: Index, f: Bit, n: Index, g: Bit)
    ensures Flagged(i as bv8, f) & 0x7F == i as bv8 && (f == 1 <==> Flagged(i as bv8, f) >> 7 == 1)
    ensures (Flagged(i as bv8, f) & 0x80) ^ Flagged(n as bv8, g) == Flagged(n as bv8, (f + g) % 2)
  {
    hide Flagged;
    IndexFits(i);
    IndexFits(n);
    var x, y := i as bv8, n as bv8;
    FlagsCombine(x, f, y, g);
  }

  lemma {:induction false} OnlyIndex(i: Index)
    ensures Flagged(i as bv8, 0) == i as bv8
  {
  }
}
