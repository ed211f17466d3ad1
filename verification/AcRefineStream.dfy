/** A refined block read from the front: the next symbol, what it covers, and the rest. */
module AcRefineStream {
  import opened Shifts
  import opened ProbabilityTable
  import opened EobRuns

  /** Zeros among the values j..k-1. */
  function Zeros(vals: seq<nat>, j: nat, k: nat): nat
    requires j <= k <= |vals|
    decreases k - j
  {
    if j == k then 0 else Zeros(vals, j, k - 1) + if vals[k - 1] == 0 then 1 else 0
  }

  /** Correction bits of the values j..k-1. */
  function Corrections(vals: seq<nat>, j: nat, k: nat): seq<Bit>
    requires j <= k <= |vals|
    decreases k - j
  {
    if j == k then [] else Corrections(vals, j, k - 1) + if vals[k - 1] > 1 then [vals[k - 1] % 2] else []
  }

  predicate NoneNew(vals: seq<nat>, j: nat, k: nat)
    requires k <= |vals|
  {
    forall i :: j <= i < k ==> vals[i] != 1
  }

  lemma {:induction false} SplitCounts(vals: seq<nat>, j: nat, m: nat, k: nat)
    requires j <= m <= k <= |vals|
    ensures Zeros(vals, j, k) == Zeros(vals, j, m) + Zeros(vals, m, k)
    ensures Corrections(vals, j, k) == Corrections(vals, j, m) + Corrections(vals, m, k)
    decreases k - m
  {
    if m < k {
      SplitCounts(vals, j, m, k - 1);
    }
  }

  /** A zero run found at position `q`. */
  lemma {:induction false} FindZero(vals: seq<nat>, j: nat, k: nat, n: nat) returns (q: nat)
    requires j <= k <= |vals| && Zeros(vals, j, k) > n
    ensures j <= q < k && vals[q] == 0 && Zeros(vals, j, q) == n
    decreases k - j
  {
    if vals[k - 1] == 0 && Zeros(vals, j, k - 1) == n {
      q := k - 1;
    } else {
      q := FindZero(vals, j, k - 1, n);
    }
  }

  // ----- the next symbol

  /** What comes first from `j` on: nothing more to send at once, sixteen zeros, or a
      newly nonzero value, found at `q`. */
  datatype First = NoSymbol | ZeroRun(q: nat) | NewValue(q: nat)

  ghost predicate Reads(vals: seq<nat>, negative: seq<bool>, last: nat, j: nat, code: BlockCode, first: First)
    requires j <= |vals| == |negative|
  {
    match first
    case NoSymbol =>
      NoneNew(vals, j, |vals|) && code == BlockCode([], Corrections(vals, j, |vals|), j < |vals|)
    case ZeroRun(q) =>
      && j <= q < |vals| && vals[q] == 0 && Zeros(vals, j, q) == 15 && NoneNew(vals, j, q)
      && code == Prepend([Symbol(ZRL)] + Raws(Corrections(vals, j, q)), RefineFrom(vals, negative, last, q + 1, 0, []))
    case NewValue(q) =>
      && j <= q < |vals| && vals[q] == 1 && Zeros(vals, j, q) <= 15 && NoneNew(vals, j, q)
      && code == Prepend([Symbol(16 * Zeros(vals, j, q) + 1), Raw(if negative[q] then 0 else 1)] + Raws(Corrections(vals, j, q)),
                         RefineFrom(vals, negative, last, q + 1, 0, []))
  }

  /** The encoder is at `k` and has sent nothing since `j`. */
  ghost predicate Stretch(vals: seq<nat>, last: nat, j: nat, k: nat) {
    && j <= k <= |vals| && NoneNew(vals, j, k)
    && (k <= last ==> forall i :: j <= i < k && vals[i] > 1 ==> Zeros(vals, j, i) <= 15)
  }

  /** Zeros only change the run length. */
  lemma {:induction false} OnlyZeros(vals: seq<nat>, negative: seq<bool>, last: nat, p: nat, k: nat)
    requires p <= k <= |vals| == |negative| && forall i :: p <= i < k ==> vals[i] == 0
    ensures Zeros(vals, p, k) == k - p && Corrections(vals, p, k) == []
    ensures RefineFrom(vals, negative, last, p, 0, []) == RefineFrom(vals, negative, last, k, k - p, [])
    decreases k - p
  {
    if p < k {
      OnlyZeros(vals, negative, last, p, k - 1);
      RefineStep(vals, negative, last, k - 1, k - 1 - p, []);
      hide RefineFrom, RefineItems;
    }
  }

  /** The sixteenth zero of a stretch. */
  lemma {:induction false} SixteenthZero(vals: seq<nat>, last: nat, j: nat, k: nat) returns (q: nat)
    requires Stretch(vals, last, j, k) && k <= last && Zeros(vals, j, k) > 15
    ensures j <= q < k && vals[q] == 0 && Zeros(vals, j, q) == 15
    ensures forall i :: q < i < k ==> vals[i] == 0
    ensures Zeros(vals, j, k) == 16 + Zeros(vals, q + 1, k)
    ensures Corrections(vals, j, k) == Corrections(vals, j, q) + Corrections(vals, q + 1, k)
  {
    q := FindZero(vals, j, k, 15);
    ZerosAfter(vals, last, j, q, k);
    SplitCounts(vals, j, q, k);
    SplitCounts(vals, q, q + 1, k);
    OneValue(vals, q);
    hide Zeros, Corrections;
    assert Corrections(vals, j, q) + ([] + Corrections(vals, q + 1, k)) == Corrections(vals, j, q) + Corrections(vals, q + 1, k);
  }

  /** A run over 15 before a nonzero value: its first sixteen zeros. */
  lemma {:induction false} FirstZeroRun(vals: seq<nat>, negative: seq<bool>, last: nat, j: nat, k: nat) returns (first: First)
    requires Stretch(vals, last, j, k) && |vals| == |negative| && k < |vals| && k <= last && vals[k] != 0
    requires Zeros(vals, j, k) > 15
    ensures Reads(vals, negative, last, j, RefineFrom(vals, negative, last, k, Zeros(vals, j, k), Corrections(vals, j, k)), first)
  {
    hide Zeros, Corrections, RefineFrom, RefineItems, RefineZrls;
    var q := SixteenthZero(vals, last, j, k);
    first := ZeroRun(q);
    OnlyZeros(vals, negative, last, q + 1, k);
    var r, bits, left := Zeros(vals, j, k), Corrections(vals, j, q), k - (q + 1);
    assert bits + [] == bits;
    FoldOne(vals, negative, last, k, r, bits);
  }

  /** Sending one ZRL of several. */
  lemma {:induction false} FoldOne(vals: seq<nat>, negative: seq<bool>, last: nat, k: nat, r: nat, bits: seq<Bit>)
    requires k < |vals| == |negative| && k <= last && vals[k] != 0 && r > 15
    ensures RefineFrom(vals, negative, last, k, r, bits)
         == Prepend([Symbol(ZRL)] + Raws(bits), RefineFrom(vals, negative, last, k, r - 16, []))
  {
    RefineStep(vals, negative, last, k, r, bits);
    RefineStep(vals, negative, last, k, r - 16, []);
    FoldedItems(vals[k], negative[k], r, bits);
    hide RefineFrom, RefineItems;
    var rest := if vals[k] > 1 then RefineFrom(vals, negative, last, k + 1, r % 16, [] + [vals[k] % 2])
                else RefineFrom(vals, negative, last, k + 1, 0, []);
    PrependTwice([Symbol(ZRL)] + Raws(bits), RefineItems(vals[k], negative[k], r - 16 > 15, r - 16, []), rest);
  }

  lemma {:induction false} OneValue(vals: seq<nat>, q: nat)
    requires q < |vals| && vals[q] == 0
    ensures Zeros(vals, q, q + 1) == 1 && Corrections(vals, q, q + 1) == []
  {
  }

  /** Behind the sixteenth zero of a stretch there are only zeros. */
  lemma {:induction false} ZerosAfter(vals: seq<nat>, last: nat, j: nat, q: nat, k: nat)
    requires Stretch(vals, last, j, k) && k <= last && j <= q < k && vals[q] == 0 && Zeros(vals, j, q) == 15
    ensures forall i :: q < i < k ==> vals[i] == 0
  {
    forall i | q < i < k
      ensures vals[i] == 0
    {
      SplitCounts(vals, j, q + 1, i);
    }
  }

  /** A folded run sends one ZRL, then what the shorter run would send. */
  lemma {:induction false} FoldedItems(v: nat, negative: bool, r: nat, bits: seq<Bit>)
    requires r > 15 && v != 0
    ensures RefineItems(v, negative, true, r, bits)
         == [Symbol(ZRL)] + Raws(bits) + RefineItems(v, negative, r - 16 > 15, r - 16, [])
  {
    var z := RefineZrls(r - 16, []);
    assert r % 16 == (r - 16) % 16;
    if v == 1 {
      var tail := [Symbol(16 * (r % 16) + 1), Raw(if negative then 0 else 1)];
      assert [Symbol(ZRL)] + Raws(bits) + z + tail + Raws([]) == [Symbol(ZRL)] + Raws(bits) + (z + tail + Raws([]));
    }
  }

  lemma {:induction false} UnfoldedCorrection(negative: bool, v: nat, r: nat, bits: seq<Bit>)
    requires v > 1
    ensures RefineItems(v, negative, false, r, bits) == []
  {
  }

  lemma {:induction false} NextCounts(vals: seq<nat>, j: nat, k: nat)
    requires j <= k < |vals|
    ensures Zeros(vals, j, k + 1) == Zeros(vals, j, k) + if vals[k] == 0 then 1 else 0
    ensures Corrections(vals, j, k + 1) == if vals[k] > 1 then Corrections(vals, j, k) + [vals[k] % 2] else Corrections(vals, j, k)
  {
  }

  lemma {:induction false} UnfoldedItems(negative: bool, r: nat, bits: seq<Bit>)
    ensures RefineItems(1, negative, false, r, bits) == [Symbol(16 * r + 1), Raw(if negative then 0 else 1)] + Raws(bits)
  {
    var head := [Symbol(16 * r + 1), Raw(if negative then 0 else 1)];
    assert [] + head == head;
  }

  /** What the encoder sends next, seen from `j`. */
  lemma {:induction false} NextSymbol(vals: seq<nat>, negative: seq<bool>, last: nat, j: nat, k: nat) returns (first: First)
    requires |vals| == |negative| && Stretch(vals, last, j, k) && last == LastNew(vals, |vals|)
    ensures Reads(vals, negative, last, j, RefineFrom(vals, negative, last, k, Zeros(vals, j, k), Corrections(vals, j, k)), first)
    decreases |vals| - k
  {
    var r, bits := Zeros(vals, j, k), Corrections(vals, j, k);
    if k < |vals| {
      NextCounts(vals, j, k);
      RefineStep(vals, negative, last, k, r, bits);
    }
    hide RefineZrls, Zeros, Corrections, RefineItems, LastNew;
    if k == |vals| {
      first := NoSymbol;
      SomeCount(vals, j, k);
    } else if vals[k] == 0 {
      first := NextSymbol(vals, negative, last, j, k + 1);
    } else if r > 15 && k <= last {
      first := FirstZeroRun(vals, negative, last, j, k);
    } else {
      assert vals[k] == 1 ==> k <= last;
      if vals[k] > 1 {
        UnfoldedCorrection(negative[k], vals[k], r, bits);
        first := NextSymbol(vals, negative, last, j, k + 1);
        PrependTwice([], [], RefineFrom(vals, negative, last, k + 1, r, bits + [vals[k] % 2]));
      } else {
        first := NewValue(k);
        UnfoldedItems(negative[k], r, bits);
      }
    }
  }

  lemma {:induction false} SomeCount(vals: seq<nat>, j: nat, k: nat)
    requires j <= k <= |vals| && NoneNew(vals, j, k)
    ensures Zeros(vals, j, k) > 0 || Corrections(vals, j, k) != [] <==> j < k
  {
    if j < k {
      assert vals[k - 1] != 1;
    }
  }

  /** A block that sends nothing at once has only corrections. */
  lemma {:induction false} NothingAtOnce(vals: seq<nat>, negative: seq<bool>, last: nat, j: nat, code: BlockCode, first: First)
    requires j <= |vals| == |negative| && Reads(vals, negative, last, j, code, first) && code.prefix == []
    ensures NoneNew(vals, j, |vals|) && code.tail == Corrections(vals, j, |vals|)
  {
    hide RefineFrom, Corrections, Zeros;
  }
}
