/** Counting code lengths, limiting them to 16 bits, and sorting the symbols (jchuff.c,
    second half of jpeg_gen_optimal_table). */
module CodeLengths {
  import opened Shifts
  import opened HuffmanTree
  import opened Frequencies
  import opened OptimalTable

  const LONGEST := 16

  function Total(bits: seq<nat>, l: nat): nat
    requires l < |bits|
  {
    if l == 0 then bits[0] else Total(bits, l - 1) + bits[l]
  }

  lemma {:induction false} TotalUpdate(bits: seq<nat>, k: nat, v: nat, l: nat)
    requires k < |bits| && l < |bits|
    ensures Total(bits[k := v], l) == if k <= l then Total(bits, l) - bits[k] + v else Total(bits, l)
  {
    if l > 0 {
      TotalUpdate(bits, k, v, l - 1);
    }
  }

  lemma {:induction false} TotalBounds(bits: seq<nat>, k: nat, l: nat)
    requires k <= l < |bits|
    ensures bits[k] <= Total(bits, l)
  {
    if k < l {
      TotalBounds(bits, k, l - 1);
    }
  }

  /** `bits[k] += d` */
  function Plus(bits: seq<nat>, k: nat, d: int): (r: seq<nat>)
    requires k < |bits| && bits[k] + d >= 0
    ensures |r| == |bits| && r[k] == bits[k] + d
    ensures forall i :: 0 <= i < |bits| && i != k ==> r[i] == bits[i]
  {
    bits[k := bits[k] + d]
  }

  lemma {:induction false} PlusTotal(bits: seq<nat>, k: nat, d: int, l: nat)
    requires k <= l < |bits| && bits[k] + d >= 0
    ensures Total(Plus(bits, k, d), l) == Total(bits, l) + d
  {
    TotalUpdate(bits, k, bits[k] + d, l);
  }

  lemma {:induction false} PlusKraft(bits: seq<nat>, k: nat, d: int, l: nat)
    requires k < |bits| && l < |bits| && bits[k] + d >= 0
    ensures k > l ==> Kraft(Plus(bits, k, d), l) == Kraft(bits, l)
    ensures k <= l && d == 1 ==> Kraft(Plus(bits, k, d), l) == Kraft(bits, l) + Pow2(l - k)
    ensures k <= l && d == -1 ==> Kraft(Plus(bits, k, d), l) == Kraft(bits, l) - Pow2(l - k)
    ensures k <= l && d == 2 ==> Kraft(Plus(bits, k, d), l) == Kraft(bits, l) + 2 * Pow2(l - k)
    ensures k <= l && d == -2 ==> Kraft(Plus(bits, k, d), l) == Kraft(bits, l) - 2 * Pow2(l - k)
    decreases l
  {
    if l > 0 {
      PlusKraft(bits, k, d, l - 1);
      if k < l {
        Pow2Double(l - 1 - k);
        hide Shl, Pow2;
      }
    }
  }

  // ----- counting

  ghost function OfSize(codesize: seq<int>, n: nat, k: int): set<int>
    requires n <= |codesize|
  {
    set s | 0 <= s < n && codesize[s] == k
  }

  ghost function Coded(codesize: seq<int>, n: nat): set<int>
    requires n <= |codesize|
  {
    set s | 0 <= s < n && codesize[s] != 0
  }

  lemma {:induction false} CountNext(codesize: seq<int>, n: nat)
    requires n < |codesize|
    ensures forall k :: |OfSize(codesize, n + 1, k)| == |OfSize(codesize, n, k)| + if codesize[n] == k then 1 else 0
    ensures |Coded(codesize, n + 1)| == |Coded(codesize, n)| + if codesize[n] != 0 then 1 else 0
  {
    forall k
      ensures |OfSize(codesize, n + 1, k)| == |OfSize(codesize, n, k)| + if codesize[n] == k then 1 else 0
    {
      assert OfSize(codesize, n + 1, k) == OfSize(codesize, n, k) + if codesize[n] == k then {n as int} else {};
    }
    assert Coded(codesize, n + 1) == Coded(codesize, n) + if codesize[n] != 0 then {n as int} else {};
  }

  lemma {:induction false} CodedMonotone(codesize: seq<int>, m: nat, n: nat)
    requires m <= n <= |codesize|
    ensures |Coded(codesize, m)| <= |Coded(codesize, n)|
    decreases n
  {
    if m < n {
      CountNext(codesize, n - 1);
      CodedMonotone(codesize, m, n - 1);
    }
  }

  /** How many symbols have each code length; fails if one is over 32. */
  method CountLengths(codesize: array<int>, bits: array<nat>) returns (ok: bool)
    requires codesize.Length == SYMBOLS && bits.Length == MAX_CLEN + 1
    requires forall s :: 0 <= s < SYMBOLS ==> codesize[s] >= 0
    requires |Coded(codesize[..], SYMBOLS)| <= 255
    requires forall k :: 0 <= k <= MAX_CLEN ==> bits[k] == 0
    modifies bits
    ensures ok <==> forall s :: 0 <= s < SYMBOLS ==> codesize[s] <= MAX_CLEN
    ensures ok ==> Total(bits[..], MAX_CLEN) == |Coded(codesize[..], SYMBOLS)|
    ensures ok ==> forall k :: 0 <= k <= MAX_CLEN ==> bits[k] == if k == 0 then 0 else |OfSize(codesize[..], SYMBOLS, k)|
  {
    hide OfSize, Coded, Total;
    NothingCounted(codesize[..], bits[..]);
    for i := 0 to SYMBOLS
      invariant codesize[..] == old(codesize[..])
      invariant forall s :: 0 <= s < i ==> codesize[s] <= MAX_CLEN
      invariant Total(bits[..], MAX_CLEN) == |Coded(codesize[..], i)|
      invariant forall k :: 0 <= k <= MAX_CLEN ==> bits[k] == if k == 0 then 0 else |OfSize(codesize[..], i, k)|
    {
      if codesize[i] != 0 {
        if codesize[i] > MAX_CLEN {
          return false;
        }
        ghost var before := bits[..];
        CountNext(codesize[..], i);
        CodedMonotone(codesize[..], i + 1, SYMBOLS);
        TotalBounds(before, codesize[i], MAX_CLEN);
        TotalUpdate(before, codesize[i], before[codesize[i]] + 1, MAX_CLEN);
        bits[codesize[i]] := (bits[codesize[i]] + 1) % 256;
        assert bits[..] == before[codesize[i] := before[codesize[i]] + 1];
      } else {
        CountNext(codesize[..], i);
      }
    }
    ok := true;
  }

  lemma {:induction false} NothingCounted(codesize: seq<int>, bits: seq<nat>)
    requires |bits| == MAX_CLEN + 1 && forall k :: 0 <= k <= MAX_CLEN ==> bits[k] == 0
    ensures Total(bits, MAX_CLEN) == |Coded(codesize, 0)| && forall k :: |OfSize(codesize, 0, k)| == 0
  {
    TotalZero(bits, MAX_CLEN);
  }

  lemma {:induction false} TotalZero(bits: seq<nat>, l: nat)
    requires l < |bits| && forall k :: 0 <= k <= l ==> bits[k] == 0
    ensures Total(bits, l) == 0
  {
    if l > 0 {
      TotalZero(bits, l - 1);
    }
  }

  // ----- limiting

  /** The lengths up to `top` form a complete code of at most 255 symbols. */
  ghost predicate Complete(bits: seq<nat>, top: nat, n: nat) {
    && |bits| == MAX_CLEN + 1 && LONGEST <= top <= MAX_CLEN
    && bits[0] == 0 && (forall k :: top < k <= MAX_CLEN ==> bits[k] == 0)
    && Kraft(bits, top) == Pow2(top) && Total(bits, MAX_CLEN) == n <= 255
  }

  /** An odd number of longest codes cannot complete a code. */
  lemma {:induction false} LongestPaired(bits: seq<nat>, i: nat, n: nat)
    requires Complete(bits, i, n)
    ensures bits[i] % 2 == 0
    ensures bits[i] == 0 && i > LONGEST ==> Complete(bits, i - 1, n)
  {
    Pow2Double(i - 1);
    hide Pow2;
    assert Kraft(bits, i) == 2 * Kraft(bits, i - 1) + bits[i];
  }

  lemma {:induction false} KraftZero(bits: seq<nat>, l: nat)
    requires l < |bits| && forall k :: 0 <= k <= l ==> bits[k] == 0
    ensures Kraft(bits, l) == 0
  {
    if l > 0 {
      KraftZero(bits, l - 1);
    }
  }

  lemma {:induction false} OnlyLongest(bits: seq<nat>, i: nat)
    requires 2 <= i < |bits| && forall k :: 0 <= k <= i - 2 ==> bits[k] == 0
    ensures Kraft(bits, i) == 2 * bits[i - 1] + bits[i]
  {
    KraftZero(bits, i - 2);
    assert Kraft(bits, i) == 2 * (2 * Kraft(bits, i - 2) + bits[i - 1]) + bits[i];
  }

  /** Some code is at least two bits shorter than the longest. */
  lemma {:induction false} ShorterExists(bits: seq<nat>, i: nat, n: nat)
    requires Complete(bits, i, n) && i > LONGEST
    ensures exists j :: 1 <= j <= i - 2 && bits[j] != 0
  {
    TotalBounds(bits, i, MAX_CLEN);
    TotalBounds(bits, i - 1, MAX_CLEN);
    ShlConstants(1);
    Pow2Strict(16, i);
    hide Pow2, Total, Kraft;
    if forall j :: 1 <= j <= i - 2 ==> bits[j] == 0 {
      OnlyLongest(bits, i);
    }
  }

  /** Two longest codes `i` and one of length `j` give way to one of length i - 1 and
      two of length j + 1. */
  function Shifted(bits: seq<nat>, i: nat, j: nat): (r: seq<nat>)
    requires 1 <= j <= i - 2 && i < |bits| && bits[i] >= 2 && bits[j] >= 1
    ensures |r| == |bits|
  {
    Plus(Plus(Plus(Plus(bits, i, -2), i - 1, 1), j + 1, 2), j, -1)
  }

  lemma {:induction false} ShiftKeepsTotal(bits: seq<nat>, i: nat, j: nat)
    requires 1 <= j <= i - 2 && i <= MAX_CLEN < |bits| && bits[i] >= 2 && bits[j] >= 1
    ensures Total(Shifted(bits, i, j), MAX_CLEN) == Total(bits, MAX_CLEN)
  {
    hide Total, Plus;
    var b1 := Plus(bits, i, -2);
    var b2 := Plus(b1, i - 1, 1);
    var b3 := Plus(b2, j + 1, 2);
    PlusTotal(bits, i, -2, MAX_CLEN);
    PlusTotal(b1, i - 1, 1, MAX_CLEN);
    PlusTotal(b2, j + 1, 2, MAX_CLEN);
    PlusTotal(b3, j, -1, MAX_CLEN);
  }

  lemma {:induction false} ShiftKeepsKraft(bits: seq<nat>, i: nat, j: nat)
    requires 1 <= j <= i - 2 && i < |bits| && bits[i] >= 2 && bits[j] >= 1
    ensures Kraft(Shifted(bits, i, j), i) == Kraft(bits, i)
  {
    Pow2Small();
    Pow2Double(i - j - 1);
    hide Kraft, Plus, Pow2, Shl;
    var b1 := Plus(bits, i, -2);
    var b2 := Plus(b1, i - 1, 1);
    var b3 := Plus(b2, j + 1, 2);
    PlusKraft(bits, i, -2, i);
    PlusKraft(b1, i - 1, 1, i);
    PlusKraft(b2, j + 1, 2, i);
    PlusKraft(b3, j, -1, i);
  }

  lemma {:induction false} ShiftKeepsComplete(bits: seq<nat>, i: nat, j: nat, n: nat)
    requires Complete(bits, i, n) && 1 <= j <= i - 2 && bits[i] >= 2 && bits[j] >= 1
    ensures Complete(Shifted(bits, i, j), i, n) && Shifted(bits, i, j)[i] == bits[i] - 2
    ensures forall k :: 0 <= k < |bits| ==> Shifted(bits, i, j)[k] <= 255
    ensures bits[i - 1] + 1 <= 255 && bits[j + 1] + (if j + 1 == i - 1 then 3 else 2) <= 255
  {
    ShiftKeepsKraft(bits, i, j);
    ShiftKeepsTotal(bits, i, j);
    hide Kraft, Total;
    forall k | 0 <= k < |bits|
      ensures Shifted(bits, i, j)[k] <= 255
    {
      TotalBounds(Shifted(bits, i, j), k, MAX_CLEN);
    }
    assert Shifted(bits, i, j)[i - 1] <= 255 && Shifted(bits, i, j)[j + 1] <= 255;
  }

  /** The longest length in use, up to `i`. */
  function LastUsed(bits: seq<nat>, i: nat): (j: nat)
    requires i < |bits|
    ensures j <= i && (forall k :: j < k <= i ==> bits[k] == 0) && (bits[j] != 0 || j == 0)
  {
    if i == 0 || bits[i] != 0 then i else LastUsed(bits, i - 1)
  }

  /** What splitting comes to: always the longest of the codes at least two bits shorter,
      for two of the codes too long. */
  ghost function Shortened(bits: seq<nat>, i: nat, n: nat): (r: seq<nat>)
    requires Complete(bits, i, n)
    ensures Complete(r, LONGEST, n)
    decreases i, bits[i]
  {
    if i == LONGEST then bits
    else
      LongestPaired(bits, i, n);
      if bits[i] == 0 then Shortened(bits, i - 1, n)
      else
        ShorterExists(bits, i, n);
        var j := LastUsed(bits, i - 2);
        ShiftKeepsComplete(bits, i, j, n);
        Shortened(Shifted(bits, i, j), i, n)
  }

  lemma {:induction false} ShortenedNext(bits: seq<nat>, i: nat, n: nat)
    requires Complete(bits, i, n) && i > LONGEST
    ensures bits[i] == 0 ==> Complete(bits, i - 1, n) && Shortened(bits, i, n) == Shortened(bits, i - 1, n)
    ensures bits[i] != 0 ==> bits[i] >= 2 && 1 <= LastUsed(bits, i - 2) <= i - 2 && bits[LastUsed(bits, i - 2)] != 0
    ensures bits[i] != 0 ==> Complete(Shifted(bits, i, LastUsed(bits, i - 2)), i, n)
    ensures bits[i] != 0 ==> Shortened(bits, i, n) == Shortened(Shifted(bits, i, LastUsed(bits, i - 2)), i, n)
  {
    LongestPaired(bits, i, n);
    if bits[i] != 0 {
      ShorterExists(bits, i, n);
      ShiftKeepsComplete(bits, i, LastUsed(bits, i - 2), n);
    }
    hide Shifted;
  }

  /** Codes of at most 16 bits stay as they are. */
  lemma {:induction false} ShortStays(bits: seq<nat>, i: nat, n: nat)
    requires Complete(bits, i, n) && forall k :: LONGEST < k <= MAX_CLEN ==> bits[k] == 0
    ensures Shortened(bits, i, n) == bits
  {
    if i > LONGEST {
      ShortenedNext(bits, i, n);
      hide Complete;
      ShortStays(bits, i - 1, n);
    }
  }

  /** Move codes longer than 16 bits up the tree, two at a time. */
  method LimitLengths(bits: array<nat>, ghost n: nat)
    requires Complete(bits[..], MAX_CLEN, n)
    modifies bits
    ensures Complete(bits[..], LONGEST, n)
    ensures bits[..] == Shortened(old(bits[..]), MAX_CLEN, n)
  {
    hide Complete, Shifted, Shortened;
    var i := MAX_CLEN;
    assert bits.Length == MAX_CLEN + 1 by { CompleteShape(bits[..], MAX_CLEN, n); }
    while i > LONGEST
      invariant LONGEST <= i <= MAX_CLEN && Complete(bits[..], i, n)
      invariant Shortened(bits[..], i, n) == Shortened(old(bits[..]), MAX_CLEN, n)
    {
      while bits[i] > 0
        invariant Complete(bits[..], i, n)
        invariant Shortened(bits[..], i, n) == Shortened(old(bits[..]), MAX_CLEN, n)
        decreases bits[i]
      {
        ShortenedNext(bits[..], i, n);
        var j := i - 2;
        while bits[j] == 0
          invariant 1 <= LastUsed(bits[..], i - 2) <= j <= i - 2
          decreases j
        {
          j := j - 1;
        }
        ShiftInPlace(bits, i, j, n);
      }
      ShortenedNext(bits[..], i, n);
      i := i - 1;
    }
    ShortenedDone(bits[..], n);
  }

  lemma {:induction false} ShortenedDone(bits: seq<nat>, n: nat)
    requires Complete(bits, LONGEST, n)
    ensures Shortened(bits, LONGEST, n) == bits
  {
  }

  lemma {:induction false} CompleteShape(bits: seq<nat>, top: nat, n: nat)
    requires Complete(bits, top, n)
    ensures |bits| == MAX_CLEN + 1 && bits[0] == 0
  {
  }

  /** The four counters, in eight bits each, without wrapping around. */
  method ShiftInPlace(bits: array<nat>, i: nat, j: nat, ghost n: nat)
    requires bits.Length == MAX_CLEN + 1 && i <= MAX_CLEN && Complete(bits[..], i, n) && 1 <= j <= i - 2 && bits[i] >= 2 && bits[j] >= 1
    modifies bits
    ensures bits[..] == Shifted(old(bits[..]), i, j)
    ensures Complete(bits[..], i, n) && bits[i] == old(bits[i]) - 2
  {
    hide Complete;
    ghost var b := bits[..];
    ShiftKeepsComplete(b, i, j, n);
    bits[i] := (bits[i] - 2) % 256;
    bits[i - 1] := (bits[i - 1] + 1) % 256;
    bits[j + 1] := (bits[j + 1] + 2) % 256;
    bits[j] := (bits[j] - 1) % 256;
    assert bits[..] == Shifted(b, i, j);
  }

  // ----- the pseudo-symbol

  lemma {:induction false} TotalAbove(bits: seq<nat>, l: nat, m: nat)
    requires l <= m < |bits| && forall k :: l < k <= m ==> bits[k] == 0
    ensures Total(bits, m) == Total(bits, l)
  {
    if l < m {
      TotalAbove(bits, l, m - 1);
    }
  }

  /** A code of `n` symbols with one longest code left unused. */
  ghost predicate OneSpare(bits: seq<nat>, n: nat) {
    && |bits| == LONGEST + 1 && bits[0] == 0 && Total(bits, LONGEST) == n
    && (forall k :: 0 <= k <= LONGEST ==> bits[k] <= 255)
    && exists last :: 1 <= last <= LONGEST && SpareAt(bits, last)
  }

  ghost predicate SpareAt(bits: seq<nat>, last: nat)
    requires |bits| == LONGEST + 1 && last <= LONGEST
  {
    && (forall k :: last < k <= LONGEST ==> bits[k] == 0)
    && Kraft(bits, LONGEST) + Pow2(LONGEST - last) == Pow2(LONGEST)
  }

  /** One code less of the longest length in use. */
  function Dropped(bits: seq<nat>): (r: seq<nat>)
    requires |bits| == MAX_CLEN + 1
    ensures |r| == LONGEST + 1
  {
    var last := LastUsed(bits, LONGEST);
    seq(LONGEST + 1, k requires 0 <= k <= LONGEST => if k == last && bits[k] > 0 then bits[k] - 1 else bits[k])
  }

  /** Drop one code of the largest length in use, and return the lengths 0..16. */
  method RemovePseudoSymbol(bits: array<nat>, ghost n: nat) returns (lengths: seq<nat>)
    requires bits.Length == MAX_CLEN + 1 && Complete(bits[..], LONGEST, n)
    modifies bits
    ensures n > 0 && OneSpare(lengths, n - 1)
    ensures lengths == Dropped(old(bits[..]))
  {
    hide Complete, OneSpare, Shl, Pow2;
    SomeLengthUsed(bits[..], n);
    ghost var used :| 1 <= used <= LONGEST && bits[used] != 0;
    ghost var b := bits[..];
    var i := LONGEST;
    while bits[i] == 0
      invariant bits[..] == b && used <= i <= LONGEST && forall k :: i < k <= LONGEST ==> bits[k] == 0
      decreases i
    {
      i := i - 1;
    }
    LongestDropped(b, i, n);
    bits[i] := bits[i] - 1;
    assert bits[..] == Plus(b, i, -1);
    lengths := bits[..LONGEST + 1];
    assert lengths == Plus(b, i, -1)[..LONGEST + 1];
    assert i == LastUsed(b, LONGEST);
  }

  lemma {:induction false} SomeLengthUsed(bits: seq<nat>, n: nat)
    requires Complete(bits, LONGEST, n)
    ensures exists k :: 1 <= k <= LONGEST && bits[k] != 0
  {
    hide Pow2, Shl;
    if forall k :: 1 <= k <= LONGEST ==> bits[k] == 0 {
      KraftZero(bits, LONGEST);
    }
  }

  lemma {:induction false} KraftOfPart(bits: seq<nat>, m: nat, l: nat)
    requires l < m <= |bits|
    ensures Kraft(bits[..m], l) == Kraft(bits, l) && Total(bits[..m], l) == Total(bits, l)
  {
    if l > 0 {
      KraftOfPart(bits, m, l - 1);
    }
  }

  lemma {:induction false} LongestDropped(bits: seq<nat>, i: nat, n: nat)
    requires Complete(bits, LONGEST, n) && 1 <= i <= LONGEST && bits[i] != 0
    requires forall k :: i < k <= LONGEST ==> bits[k] == 0
    ensures n > 0 && OneSpare(Plus(bits, i, -1)[..LONGEST + 1], n - 1)
  {
    hide Kraft, Total, Plus, Pow2, Shl;
    TotalBounds(bits, i, MAX_CLEN);
    PlusTotal(bits, i, -1, MAX_CLEN);
    PlusKraft(bits, i, -1, LONGEST);
    var b := Plus(bits, i, -1);
    var lengths := b[..LONGEST + 1];
    TotalAbove(b, LONGEST, MAX_CLEN);
    KraftOfPart(b, LONGEST + 1, LONGEST);
    forall k | 0 <= k <= LONGEST
      ensures lengths[k] <= 255
    {
      TotalBounds(b, k, MAX_CLEN);
    }
    assert SpareAt(lengths, i);
  }

  // ----- the symbols, by code length

  predicate Before(codesize: seq<int>, a: int, b: int)
    requires 0 <= a < |codesize| && 0 <= b < |codesize|
  {
    codesize[a] < codesize[b] || (codesize[a] == codesize[b] && a < b)
  }

  /** The real symbols of length below `i`, and those of length `i` below `j`. */
  ghost function Listed(codesize: seq<int>, i: int, j: int): set<int>
    requires |codesize| == SYMBOLS
  {
    set s | 0 <= s < PSEUDO && 0 < codesize[s] && (codesize[s] < i || (codesize[s] == i && s < j))
  }

  lemma {:induction false} RangeBounds(n: nat, some: set<int>)
    requires forall s :: s in some ==> 0 <= s < n
    ensures |some| <= n
    decreases n
  {
    if n > 0 {
      RangeBounds(n - 1, some - {n - 1});
    } else {
      forall s | s in some
        ensures 0 <= s < n
      {
      }
      assert some == {};
    }
  }

  /** The list so far: the right symbols, each once, in order of length. */
  ghost predicate SortedList(codesize: seq<int>, list: seq<int>, i: int, j: int)
    requires |codesize| == SYMBOLS
  {
    && (forall s :: s in list <==> s in Listed(codesize, i, j))
    && |list| == |Listed(codesize, i, j)|
    && forall p, q :: 0 <= p < q < |list| ==>
         list[p] in Listed(codesize, i, j) && list[q] in Listed(codesize, i, j) && Before(codesize, list[p], list[q])
  }

  lemma {:induction false} ListNext(codesize: seq<int>, list: seq<int>, i: int, j: int)
    requires |codesize| == SYMBOLS && SortedList(codesize, list, i, j) && 0 <= j < PSEUDO && 0 < i
    ensures codesize[j] == i ==> |list| < 256 && SortedList(codesize, list + [j], i, j + 1)
    ensures codesize[j] != i ==> SortedList(codesize, list, i, j + 1)
  {
    if codesize[j] == i {
      assert Listed(codesize, i, j + 1) == Listed(codesize, i, j) + {j};
      RangeBounds(256, Listed(codesize, i, j + 1));
      forall p | 0 <= p < |list|
        ensures Before(codesize, list[p], j)
      {
        assert list[p] in list;
      }
    } else {
      assert Listed(codesize, i, j + 1) == Listed(codesize, i, j);
    }
  }

  method SortSymbols(codesize: array<int>) returns (huffval: array<int>, ghost count: nat)
    requires codesize.Length == SYMBOLS && forall s :: 0 <= s < SYMBOLS ==> 0 <= codesize[s] <= MAX_CLEN
    ensures fresh(huffval) && huffval.Length == 256 && count <= 256 && forall p :: 0 <= p < 256 ==> 0 <= huffval[p] < 256
    ensures SortedList(codesize[..], huffval[..count], MAX_CLEN + 1, 0)
  {
    hide SortedList, Listed, Before;
    huffval := new int[256](_ => 0);
    var p := 0;
    NothingListed(codesize[..]);
    for i := 1 to MAX_CLEN + 1
      invariant p <= 256 && SortedList(codesize[..], huffval[..p], i, 0)
      invariant forall q :: 0 <= q < 256 ==> 0 <= huffval[q] < 256
    {
      for j := 0 to PSEUDO
        invariant p <= 256 && SortedList(codesize[..], huffval[..p], i, j)
        invariant forall q :: 0 <= q < 256 ==> 0 <= huffval[q] < 256
      {
        ghost var list := huffval[..p];
        ListNext(codesize[..], list, i, j);
        if codesize[j] == i {
          huffval[p] := j;
          p := p + 1;
          assert huffval[..p] == list + [j];
        }
      }
      NextLength(codesize[..], huffval[..p], i);
    }
    count := p;
  }

  lemma {:induction false} NothingListed(codesize: seq<int>)
    requires |codesize| == SYMBOLS
    ensures SortedList(codesize, [], 1, 0)
  {
    assert Listed(codesize, 1, 0) == {};
  }

  lemma {:induction false} NextLength(codesize: seq<int>, list: seq<int>, i: int)
    requires |codesize| == SYMBOLS && SortedList(codesize, list, i, PSEUDO)
    ensures SortedList(codesize, list, i + 1, 0)
  {
    assert Listed(codesize, i, PSEUDO) == Listed(codesize, i + 1, 0);
  }
}
