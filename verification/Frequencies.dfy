/** Counts of symbols, zero for those that do not occur or have been merged away. */
module Frequencies {

  const SYMBOLS := 257           // 256 real symbols and the pseudo-symbol
  const PSEUDO := 256
  const MAX_FREQ := 1_000_000_000

  function Sum(s: seq<int>): int {
    if s == [] then 0 else Sum(s[..|s| - 1]) + s[|s| - 1]
  }

  lemma {:induction false} SumUpdate(s: seq<int>, i: nat, v: int)
    requires i < |s|
    ensures Sum(s[i := v]) == Sum(s) - s[i] + v
  {
    var n := |s| - 1;
    if i == n {
      assert s[i := v][..n] == s[..n];
    } else {
      SumUpdate(s[..n], i, v);
      assert s[i := v][..n] == s[..n][i := v];
    }
  }

  lemma {:induction false} SumBounds(s: seq<int>, i: nat)
    requires i < |s| && forall k :: 0 <= k < |s| ==> s[k] >= 0
    ensures s[i] <= Sum(s)
    ensures Sum(s[..|s| - 1]) >= 0
  {
    var n := |s| - 1;
    if n > 0 {
      SumBounds(s[..n], if i < n then i else 0);
    }
  }

  lemma {:induction false} SumZero(s: seq<int>)
    requires forall i :: 0 <= i < |s| ==> s[i] == 0
    ensures Sum(s) == 0
  {
    if s != [] {
      SumZero(s[..|s| - 1]);
    }
  }

  predicate Nonnegative(freq: seq<int>) {
    forall r :: 0 <= r < |freq| ==> freq[r] >= 0
  }

  predicate Alive(freq: seq<int>, r: int) {
    0 <= r < |freq| && freq[r] != 0
  }

  lemma {:induction false} CountsBounded(freq: seq<int>)
    requires Nonnegative(freq) && Sum(freq) <= MAX_FREQ
    ensures forall i :: 0 <= i < |freq| ==> freq[i] <= MAX_FREQ
  {
    forall i | 0 <= i < |freq|
      ensures freq[i] <= MAX_FREQ
    {
      SumBounds(freq, i);
    }
  }

  // ----- merging two counts

  function MergedFreq(freq: seq<int>, c1: nat, c2: nat): seq<int>
    requires c1 < |freq| && c2 < |freq|
  {
    freq[c1 := freq[c1] + freq[c2]][c2 := 0]
  }

  ghost predicate Mergeable(freq: seq<int>, c1: nat, c2: nat) {
    && Nonnegative(freq) && Alive(freq, c1) && Alive(freq, c2) && c1 != c2
    && forall r :: Alive(freq, r) && r != c1 && r != c2 ==> freq[r] >= freq[c1] && freq[r] >= freq[c2]
  }

  ghost function AliveSet(freq: seq<int>): set<int> {
    set r | 0 <= r < |freq| && Alive(freq, r)
  }

  lemma {:induction false} MergeAlive(freq: seq<int>, c1: nat, c2: nat)
    requires Mergeable(freq, c1, c2)
    ensures Nonnegative(MergedFreq(freq, c1, c2))
    ensures forall r :: Alive(MergedFreq(freq, c1, c2), r) <==> Alive(freq, r) && r != c2
    ensures Sum(MergedFreq(freq, c1, c2)) == Sum(freq)
    ensures AliveSet(MergedFreq(freq, c1, c2)) < AliveSet(freq)
  {
    assert c2 in AliveSet(freq);
    SumUpdate(freq, c1, freq[c1] + freq[c2]);
    SumUpdate(freq[c1 := freq[c1] + freq[c2]], c2, 0);
  }
}
