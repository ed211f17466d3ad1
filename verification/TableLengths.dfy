/** Which symbol gets which length: the list by code length against the counts of lengths. */
module TableLengths {
  import opened Shifts
  import opened HuffmanTree
  import opened Frequencies
  import opened OptimalTable
  import opened CodeLengths
  import opened DerivedTable

  /** The symbols are all different and in order of length. */
  predicate Ordered(codesize: seq<int>, list: seq<int>) {
    && |codesize| == SYMBOLS && (forall p :: 0 <= p < |list| ==> 0 <= list[p] < PSEUDO)
    && forall p, q :: 0 <= p < q < |list| ==> Before(codesize, list[p], list[q])
  }

  lemma {:induction false} DistinctCount(list: seq<int>, some: set<int>)
    requires (forall s :: s in list <==> s in some) && forall p, q :: 0 <= p < q < |list| ==> list[p] != list[q]
    ensures |some| == |list|
  {
    if list == [] {
      assert forall s :: s in some ==> s in list;
      assert some == {};
    } else {
      var n := |list| - 1;
      assert list == list[..n] + [list[n]];
      assert list[n] in list && list[n] !in list[..n];
      DistinctCount(list[..n], some - {list[n]});
    }
  }

  /** How many of the list have at most `l` bits. */
  function UpTo(codesize: seq<int>, list: seq<int>, l: int): (m: nat)
    requires |codesize| == SYMBOLS && forall p :: 0 <= p < |list| ==> 0 <= list[p] < PSEUDO
    ensures m <= |list|
  {
    if list == [] || codesize[list[|list| - 1]] <= l then |list| else UpTo(codesize, list[..|list| - 1], l)
  }

  lemma {:induction false} UpToSplits(codesize: seq<int>, list: seq<int>, l: int)
    requires Ordered(codesize, list)
    ensures forall p :: 0 <= p < |list| ==> (codesize[list[p]] <= l <==> p < UpTo(codesize, list, l))
  {
    if list != [] && codesize[list[|list| - 1]] > l {
      UpToSplits(codesize, list[..|list| - 1], l);
    }
  }

  lemma {:induction false} ListedNext(codesize: seq<int>, l: nat)
    requires |codesize| == SYMBOLS && l > 0
    ensures |Listed(codesize, l + 1, 0)| == |Listed(codesize, l, 0)| + |OfSize(codesize, PSEUDO, l)|
  {
    assert Listed(codesize, l + 1, 0) == Listed(codesize, l, 0) + OfSize(codesize, PSEUDO, l);
  }

  /** As many symbols up to a length as the counts say. */
  lemma {:induction false} UpToCounted(codesize: seq<int>, list: seq<int>, bits: seq<nat>, l: nat)
    requires Ordered(codesize, list) && (forall s :: s in list <==> s in Listed(codesize, MAX_CLEN + 1, 0))
    requires |bits| == LONGEST + 1 && bits[0] == 0 && l <= LONGEST
    requires forall k :: 1 <= k <= LONGEST ==> bits[k] == |OfSize(codesize, PSEUDO, k)|
    ensures UpTo(codesize, list, l) == |Listed(codesize, l + 1, 0)| == Total(bits, l)
  {
    var m := UpTo(codesize, list, l);
    UpToSplits(codesize, list, l);
    assert Listed(codesize, 1, 0) == {};
    TotalListed(codesize, bits, l);
    forall s | s in Listed(codesize, l + 1, 0)
      ensures s in list[..m]
    {
      assert s in list;
      var p :| 0 <= p < |list| && list[p] == s;
      assert list[..m][p] == s;
    }
    forall p | 0 <= p < m
      ensures list[..m][p] in Listed(codesize, l + 1, 0)
    {
      assert list[p] in list;
    }
    DistinctCount(list[..m], Listed(codesize, l + 1, 0));
  }

  lemma {:induction false} TotalListed(codesize: seq<int>, bits: seq<nat>, l: nat)
    requires |codesize| == SYMBOLS && |bits| == LONGEST + 1 && bits[0] == 0 && l <= LONGEST
    requires forall k :: 1 <= k <= LONGEST ==> bits[k] == |OfSize(codesize, PSEUDO, k)|
    ensures |Listed(codesize, l + 1, 0)| == Total(bits, l)
  {
    if l == 0 {
      assert Listed(codesize, 1, 0) == {};
    } else {
      TotalListed(codesize, bits, l - 1);
      ListedNext(codesize, l);
    }
  }

  /** A symbol's length in the table is its own. */
  lemma {:induction false} SizesAreOwn(codesize: seq<int>, list: seq<int>, bits: seq<nat>, l: nat)
    requires Ordered(codesize, list) && (forall s :: s in list <==> s in Listed(codesize, MAX_CLEN + 1, 0))
    requires |bits| == LONGEST + 1 && bits[0] == 0 && l <= LONGEST
    requires forall k :: 1 <= k <= LONGEST ==> bits[k] == |OfSize(codesize, PSEUDO, k)|
    ensures |Sizes(bits, l)| == UpTo(codesize, list, l)
    ensures forall p :: 0 <= p < |Sizes(bits, l)| ==> Sizes(bits, l)[p] == codesize[list[p]]
  {
    hide Total, Listed, OfSize, Before;
    UpToCounted(codesize, list, bits, l);
    UpToSplits(codesize, list, l);
    SizesOrdered(bits, l);
    if l > 0 {
      SizesAreOwn(codesize, list, bits, l - 1);
      UpToSplits(codesize, list, l - 1);
      var before := Sizes(bits, l - 1);
      assert Sizes(bits, l) == before + Repeated(l, bits[l]);
    } else {
      assert Sizes(bits, 0) == [];
    }
  }

  // ----- without the pseudo-symbol

  lemma {:induction false} WithoutPseudo(codesize: seq<int>, k: int)
    requires |codesize| == SYMBOLS
    ensures |OfSize(codesize, SYMBOLS, k)| == |OfSize(codesize, PSEUDO, k)| + if codesize[PSEUDO] == k then 1 else 0
  {
    CountNext(codesize, PSEUDO);
  }

  /** If no length is over 16 and the pseudo-symbol has the greatest, dropping a code is
      dropping its own. */
  lemma {:induction false} DroppedIsPseudo(codesize: seq<int>, lengths: seq<nat>, k: nat)
    requires |codesize| == SYMBOLS && 0 < codesize[PSEUDO] <= LONGEST
    requires forall s :: 0 <= s < SYMBOLS ==> codesize[s] <= codesize[PSEUDO]
    requires |lengths| == MAX_CLEN + 1 && lengths[0] == 0
    requires forall k :: 1 <= k <= MAX_CLEN ==> lengths[k] == |OfSize(codesize, SYMBOLS, k)|
    requires k <= LONGEST
    ensures Dropped(lengths)[k] == if k == 0 then 0 else |OfSize(codesize, PSEUDO, k)|
  {
    var top := codesize[PSEUDO];
    assert PSEUDO in OfSize(codesize, SYMBOLS, top);
    assert lengths[top] > 0;
    forall i | top < i <= LONGEST
      ensures lengths[i] == 0
    {
      assert OfSize(codesize, SYMBOLS, i) == {};
    }
    assert LastUsed(lengths, LONGEST) == top;
    if k > 0 {
      WithoutPseudo(codesize, k);
    }
  }
}
