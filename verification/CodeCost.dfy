/** What a code costs for given counts, and that Huffman's merging makes it least: among
    all lengths that fit the code space, so among all prefix-free codes. */
module CodeCost {
  import opened Shifts
  import opened ProbabilityTable
  import opened Frequencies

  /** Bits needed when symbol `s` occurs `freq[s]` times and has `lengths[s]` bits. */
  function Cost(freq: seq<int>, lengths: seq<int>): int
    requires |freq| == |lengths|
  {
    Sum(Products(freq, lengths))
  }

  function Products(freq: seq<int>, lengths: seq<int>): seq<int>
    requires |freq| == |lengths|
  {
    seq(|freq|, s requires 0 <= s < |freq| => freq[s] * lengths[s])
  }

  /** Lengths of at most `max` bits for the symbols that occur. */
  ghost predicate Within(freq: seq<int>, lengths: seq<nat>, max: nat) {
    |freq| == |lengths| && forall s :: Alive(freq, s) ==> lengths[s] <= max
  }

  /** The code space each symbol takes, in units of codes of `max` bits. */
  ghost function Shares(freq: seq<int>, lengths: seq<nat>, max: nat): seq<int>
    requires Within(freq, lengths, max)
  {
    seq(|freq|, s requires 0 <= s < |freq| => if Alive(freq, s) then Pow2(max - lengths[s]) else 0)
  }

  /** The symbols that occur fit the code space. */
  ghost predicate Fits(freq: seq<int>, lengths: seq<nat>, max: nat) {
    Within(freq, lengths, max) && Sum(Shares(freq, lengths, max)) <= Pow2(max)
  }

  // ----- sums

  lemma {:induction false} SumDoubles(a: seq<int>, b: seq<int>)
    requires |a| == |b| && forall i :: 0 <= i < |a| ==> a[i] == 2 * b[i]
    ensures Sum(a) == 2 * Sum(b)
  {
    if a != [] {
      SumDoubles(a[..|a| - 1], b[..|b| - 1]);
    }
  }

  lemma {:induction false} SumAdds(a: seq<int>, b: seq<int>, c: seq<int>)
    requires |a| == |b| == |c| && forall i :: 0 <= i < |a| ==> c[i] == a[i] + b[i]
    ensures Sum(c) == Sum(a) + Sum(b)
  {
    if a != [] {
      SumAdds(a[..|a| - 1], b[..|b| - 1], c[..|c| - 1]);
    }
  }

  lemma {:induction false} SumPair(s: seq<int>, i: nat, j: nat)
    requires i < |s| && j < |s| && i != j && forall k :: 0 <= k < |s| ==> s[k] >= 0
    ensures Sum(s) >= s[i] + s[j]
  {
    SumUpdate(s, i, 0);
    SumBounds(s[i := 0], j);
  }

  lemma {:induction false} SumUpdates(s: seq<int>, i: nat, x: int, j: nat, y: int)
    requires i < |s| && j < |s| && i != j
    ensures Sum(s[i := x][j := y]) == Sum(s) - s[i] - s[j] + x + y
  {
    SumUpdate(s, i, x);
    SumUpdate(s[i := x], j, y);
  }

  // ----- changing lengths

  /** Giving the longer code to the rarer symbol costs no more. */
  lemma {:induction false} Exchange(freq: seq<int>, lengths: seq<nat>, max: nat, c: nat, z: nat)
    returns (better: seq<nat>)
    requires Nonnegative(freq) && Fits(freq, lengths, max) && Alive(freq, c) && Alive(freq, z)
    requires freq[c] <= freq[z] && lengths[c] <= lengths[z] && c != z
    ensures better == lengths[c := lengths[z]][z := lengths[c]]
    ensures Fits(freq, better, max) && Cost(freq, better) <= Cost(freq, lengths)
  {
    hide Sum, Pow2;
    better := lengths[c := lengths[z]][z := lengths[c]];
    var products, shares := Products(freq, lengths), Shares(freq, lengths, max);
    SumUpdates(products, c, freq[c] * lengths[z], z, freq[z] * lengths[c]);
    assert Products(freq, better) == products[c := freq[c] * lengths[z]][z := freq[z] * lengths[c]];
    assert freq[c] * lengths[z] + freq[z] * lengths[c] <= freq[c] * lengths[c] + freq[z] * lengths[z] by {
      Rearranged(freq[c], freq[z], lengths[c], lengths[z]);
    }
    SumUpdates(shares, c, shares[z], z, shares[c]);
    assert Shares(freq, better, max) == shares[c := shares[z]][z := shares[c]];
  }

  lemma {:induction false} Rearranged(f: int, g: int, l: int, m: int)
    requires f <= g && l <= m
    ensures f * m + g * l <= f * l + g * m
  {
    assert (g - f) * (m - l) >= 0;
  }

  /** If no code has the full length, one bit less will do. */
  lemma {:induction false} Shallower(freq: seq<int>, lengths: seq<nat>, max: nat)
    requires max > 0 && Within(freq, lengths, max - 1)
    ensures Sum(Shares(freq, lengths, max)) == 2 * Sum(Shares(freq, lengths, max - 1))
  {
    hide Sum;
    forall s | 0 <= s < |freq|
      ensures Shares(freq, lengths, max)[s] == 2 * Shares(freq, lengths, max - 1)[s]
    {
      if Alive(freq, s) {
        Pow2Double(max - 1 - lengths[s]);
      }
    }
    hide Pow2;
    SumDoubles(Shares(freq, lengths, max), Shares(freq, lengths, max - 1));
  }

  /** A single code of the full length can be shortened: its sibling is unused. */
  lemma {:induction false} Shorten(freq: seq<int>, lengths: seq<nat>, max: nat, i: nat) returns (better: seq<nat>)
    requires Nonnegative(freq) && Fits(freq, lengths, max) && max > 0 && Alive(freq, i) && lengths[i] == max
    requires forall s :: Alive(freq, s) && s != i ==> lengths[s] < max
    ensures Fits(freq, better, max - 1) && Cost(freq, better) <= Cost(freq, lengths)
  {
    better := lengths[i := max - 1];
    Pow2Double(max - 1);
    Pow2Double(0);
    assert Pow2(0) == 1;
    hide Sum, Pow2;
    var shares, products := Shares(freq, lengths, max), Products(freq, lengths);
    SumUpdate(shares, i, 2);
    assert Shares(freq, better, max) == shares[i := 2];
    Shallower(freq, better, max);
    SumUpdate(products, i, freq[i] * (max - 1));
    assert Products(freq, better) == products[i := freq[i] * (max - 1)];
  }

  /** Some lengths that cost no more give the two rarest symbols the full length. */
  lemma {:induction false} RarestDeepest(freq: seq<int>, lengths: seq<nat>, max: nat, c1: nat, c2: nat)
    returns (better: seq<nat>, m: nat)
    requires Mergeable(freq, c1, c2) && Fits(freq, lengths, max)
    ensures Fits(freq, better, m) && Cost(freq, better) <= Cost(freq, lengths)
    ensures m > 0 && better[c1] == better[c2] == m
    decreases max
  {
    hide Sum, Cost, Pow2;
    if max == 0 {
      NoRoom(freq, lengths, c1, c2);
    } else if x :| Alive(freq, x) && lengths[x] == max {
      if y :| Alive(freq, y) && y != x && lengths[y] == max {
        better, m := lengths, max;
        if better[c1] < max {
          better := Exchange(freq, better, max, c1, if x != c2 then x else y);
        }
        if better[c2] < max {
          var z := if lengths[c1] == max then if x != c1 then x else y else if x != c2 then y else x;
          better := Exchange(freq, better, max, c2, z);
        }
      } else {
        better := Shorten(freq, lengths, max, x);
        var cost := Cost(freq, better);
        better, m := RarestDeepest(freq, better, max - 1, c1, c2);
      }
    } else {
      Shallower(freq, lengths, max);
      Pow2Double(max - 1);
      better, m := RarestDeepest(freq, lengths, max - 1, c1, c2);
    }
  }

  lemma {:induction false} NoRoom(freq: seq<int>, lengths: seq<nat>, c1: nat, c2: nat)
    requires Within(freq, lengths, 0) && Alive(freq, c1) && Alive(freq, c2) && c1 != c2
    ensures Sum(Shares(freq, lengths, 0)) > Pow2(0)
  {
    assert Pow2(0) == 1;
    hide Sum;
    SumPair(Shares(freq, lengths, 0), c1, c2);
  }

  /** Merging the two rarest symbols takes at least their occurrences off the cost. */
  lemma {:induction false} MergeCost(freq: seq<int>, lengths: seq<nat>, max: nat, c1: nat, c2: nat)
    returns (merged: seq<nat>, m: nat)
    requires Mergeable(freq, c1, c2) && Fits(freq, lengths, max)
    ensures Fits(MergedFreq(freq, c1, c2), merged, m)
    ensures Cost(freq, lengths) >= freq[c1] + freq[c2] + Cost(MergedFreq(freq, c1, c2), merged)
  {
    var better;
    better, m := RarestDeepest(freq, lengths, max, c1, c2);
    merged := better[c1 := m - 1];
    JoinShares(freq, better, m, c1, c2);
    JoinProducts(freq, better, m, c1, c2);
  }

  lemma {:induction false} JoinShares(freq: seq<int>, lengths: seq<nat>, max: nat, c1: nat, c2: nat)
    requires Mergeable(freq, c1, c2) && Fits(freq, lengths, max) && max > 0 && lengths[c1] == lengths[c2] == max
    ensures Fits(MergedFreq(freq, c1, c2), lengths[c1 := max - 1], max)
  {
    MergeAlive(freq, c1, c2);
    Pow2Double(0);
    assert Pow2(0) == 1;
    hide Sum, Pow2;
    var shares := Shares(freq, lengths, max);
    SumUpdates(shares, c1, 2, c2, 0);
    assert Shares(MergedFreq(freq, c1, c2), lengths[c1 := max - 1], max) == shares[c1 := 2][c2 := 0];
  }

  lemma {:induction false} JoinProducts(freq: seq<int>, lengths: seq<nat>, max: nat, c1: nat, c2: nat)
    requires Mergeable(freq, c1, c2) && |freq| == |lengths| && max > 0 && lengths[c1] == lengths[c2] == max
    ensures Cost(freq, lengths) == freq[c1] + freq[c2] + Cost(MergedFreq(freq, c1, c2), lengths[c1 := max - 1])
  {
    hide Sum;
    var products, both := Products(freq, lengths), (freq[c1] + freq[c2]) * (max - 1);
    SumUpdates(products, c1, both, c2, 0);
    assert Products(MergedFreq(freq, c1, c2), lengths[c1 := max - 1]) == products[c1 := both][c2 := 0];
  }

  // ----- what merging keeps

  /** Whatever fits the code space for the counts costs at least the lengths so far and
      something that fits for the trees. */
  ghost predicate Frugal(counts: seq<int>, freq: seq<int>, codesize: seq<int>) {
    && |counts| == |freq| == |codesize|
    && forall lengths: seq<nat>, max: nat :: Fits(counts, lengths, max) ==> Covered(counts, freq, codesize, Cost(counts, lengths))
  }

  ghost predicate Covered(counts: seq<int>, freq: seq<int>, codesize: seq<int>, cost: int)
    requires |counts| == |freq| == |codesize|
  {
    exists lengths: seq<nat>, max: nat :: Fits(freq, lengths, max) && cost >= Cost(counts, codesize) + Cost(freq, lengths)
  }

  lemma {:induction false} StartFrugal(counts: seq<int>, codesize: seq<int>)
    requires |counts| == |codesize| && forall s :: 0 <= s < |codesize| ==> codesize[s] == 0
    ensures Frugal(counts, counts, codesize)
  {
    SumZero(Products(counts, codesize));
    hide Sum;
  }

  lemma {:induction false} MergeFrugal(counts: seq<int>, freq: seq<int>, codesize: seq<int>, deeper: seq<int>, c1: nat, c2: nat)
    requires Frugal(counts, freq, codesize) && Mergeable(freq, c1, c2) && |deeper| == |codesize|
    requires Cost(counts, deeper) == Cost(counts, codesize) + freq[c1] + freq[c2]
    ensures Frugal(counts, MergedFreq(freq, c1, c2), deeper)
  {
    hide Cost;
    forall lengths: seq<nat>, max: nat | Fits(counts, lengths, max)
      ensures Covered(counts, MergedFreq(freq, c1, c2), deeper, Cost(counts, lengths))
    {
      var l: seq<nat>, m: nat :| Fits(freq, l, m) && Cost(counts, lengths) >= Cost(counts, codesize) + Cost(freq, l);
      var merged, n := MergeCost(freq, l, m, c1, c2);
    }
  }

  /** No lengths that fit the code space cost less. */
  ghost predicate Optimal(counts: seq<int>, codesize: seq<int>) {
    && |counts| == |codesize|
    && forall lengths: seq<nat>, max: nat :: Fits(counts, lengths, max) ==> Cost(counts, codesize) <= Cost(counts, lengths)
  }

  lemma {:induction false} FrugalOptimal(counts: seq<int>, freq: seq<int>, codesize: seq<int>)
    requires Frugal(counts, freq, codesize) && Nonnegative(freq)
    ensures Optimal(counts, codesize)
  {
    hide Sum;
    forall lengths: seq<nat>, max: nat | Fits(counts, lengths, max)
      ensures Cost(counts, codesize) <= Cost(counts, lengths)
    {
      var l: seq<nat>, m: nat :| Fits(freq, l, m) && Cost(counts, lengths) >= Cost(counts, codesize) + Cost(freq, l);
      SumNonnegative(Products(freq, l));
    }
  }

  lemma {:induction false} SumNonnegative(s: seq<int>)
    requires forall i :: 0 <= i < |s| ==> s[i] >= 0
    ensures Sum(s) >= 0
  {
    if s != [] {
      SumNonnegative(s[..|s| - 1]);
    }
  }

  // ----- prefix-free codes

  /** No word of an occurring symbol begins that of another. */
  ghost predicate PrefixFreeWords(freq: seq<int>, words: seq<seq<Bit>>) {
    |freq| == |words| && forall s, t :: Alive(freq, s) && Alive(freq, t) && s != t ==> !(words[s] <= words[t])
  }

  function Lengths(words: seq<seq<Bit>>): seq<nat> {
    seq(|words|, s requires 0 <= s < |words| => |words[s]|)
  }

  /** Those symbols whose words begin with a given bit, and what follows it. */
  function Beginning(freq: seq<int>, words: seq<seq<Bit>>, bit: Bit): (part: seq<int>)
    requires |freq| == |words|
    ensures |part| == |freq|
  {
    seq(|freq|, s requires 0 <= s < |freq| => if words[s] != [] && words[s][0] == bit then freq[s] else 0)
  }

  function Tails(words: seq<seq<Bit>>): seq<seq<Bit>> {
    seq(|words|, s requires 0 <= s < |words| => if words[s] == [] then [] else words[s][1..])
  }

  /** Kraft's inequality. */
  lemma {:induction false} KraftInequality(freq: seq<int>, words: seq<seq<Bit>>, max: nat)
    requires PrefixFreeWords(freq, words) && Within(freq, Lengths(words), max)
    ensures Fits(freq, Lengths(words), max)
    decreases max
  {
    if x :| Alive(freq, x) && words[x] == [] {
      Alone(freq, words, max, x);
    } else if x :| Alive(freq, x) {
      assert |words[x]| == Lengths(words)[x] <= max;
      TailsPrefixFree(freq, words, 0);
      TailsPrefixFree(freq, words, 1);
      ByFirstBit(freq, words, max);
      KraftInequality(Beginning(freq, words, 0), Tails(words), max - 1);
      KraftInequality(Beginning(freq, words, 1), Tails(words), max - 1);
      Pow2Double(max - 1);
    } else {
      SumZero(Shares(freq, Lengths(words), max));
    }
  }

  lemma {:induction false} Alone(freq: seq<int>, words: seq<seq<Bit>>, max: nat, x: nat)
    requires PrefixFreeWords(freq, words) && Within(freq, Lengths(words), max) && Alive(freq, x) && words[x] == []
    ensures Sum(Shares(freq, Lengths(words), max)) == Pow2(max)
  {
    hide Sum, Pow2;
    var shares := Shares(freq, Lengths(words), max);
    forall s | 0 <= s < |freq| && s != x
      ensures shares[s] == 0
    {
      assert words[x] <= words[s];
    }
    SumUpdate(shares, x, 0);
    SumZero(shares[x := 0]);
  }

  lemma {:induction false} ByFirstBit(freq: seq<int>, words: seq<seq<Bit>>, max: nat)
    requires |freq| == |words| && Within(freq, Lengths(words), max) && max > 0
    requires forall s :: Alive(freq, s) ==> words[s] != []
    ensures Within(Beginning(freq, words, 0), Lengths(Tails(words)), max - 1)
    ensures Within(Beginning(freq, words, 1), Lengths(Tails(words)), max - 1)
    ensures Sum(Shares(freq, Lengths(words), max))
         == Sum(Shares(Beginning(freq, words, 0), Lengths(Tails(words)), max - 1))
          + Sum(Shares(Beginning(freq, words, 1), Lengths(Tails(words)), max - 1))
  {
    hide Sum, Pow2;
    var zeros, ones, lengths := Beginning(freq, words, 0), Beginning(freq, words, 1), Lengths(Tails(words));
    forall s | 0 <= s < |freq| && Alive(freq, s)
      ensures lengths[s] == Lengths(words)[s] - 1 && lengths[s] <= max - 1
      ensures Alive(zeros, s) <==> !Alive(ones, s)
    {
    }
    forall s | 0 <= s < |freq|
      ensures Shares(freq, Lengths(words), max)[s] == Shares(zeros, lengths, max - 1)[s] + Shares(ones, lengths, max - 1)[s]
    {
    }
    SumAdds(Shares(zeros, lengths, max - 1), Shares(ones, lengths, max - 1), Shares(freq, Lengths(words), max));
  }

  lemma {:induction false} TailsPrefixFree(freq: seq<int>, words: seq<seq<Bit>>, bit: Bit)
    requires PrefixFreeWords(freq, words)
    ensures PrefixFreeWords(Beginning(freq, words, bit), Tails(words))
  {
    var part, tails := Beginning(freq, words, bit), Tails(words);
    forall s, t | Alive(part, s) && Alive(part, t) && s != t
      ensures !(tails[s] <= tails[t])
    {
      assert Alive(freq, s) && Alive(freq, t);
      assert words[s] == [bit] + tails[s] && words[t] == [bit] + tails[t];
    }
  }

  /** Optimal lengths cost no more than any prefix-free code. */
  lemma {:induction false} NoCodeIsCheaper(counts: seq<int>, codesize: seq<int>, words: seq<seq<Bit>>)
    requires Optimal(counts, codesize) && PrefixFreeWords(counts, words)
    ensures Cost(counts, codesize) <= Cost(counts, Lengths(words))
  {
    hide Cost;
    var max := Longest(words);
    KraftInequality(counts, words, max);
  }

  lemma {:induction false} Longest(words: seq<seq<Bit>>) returns (max: nat)
    ensures forall s :: 0 <= s < |words| ==> |words[s]| <= max
  {
    max := 0;
    if words != [] {
      max := Longest(words[1..]);
      assert forall s :: 1 <= s < |words| ==> words[s] == words[1..][s - 1];
      if |words[0]| > max {
        max := |words[0]|;
      }
    }
  }
}
