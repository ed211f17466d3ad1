/** The main result about Huffman tables: what jpeg_gen_optimal_table builds from a
    histogram, jpeg_make_c_derived_tbl accepts, with a code for exactly the symbols that
    occur. */
module HuffmanTables {
  import opened Shifts
  import opened ProbabilityTable
  import opened BitStrings
  import opened HuffmanTree
  import opened Frequencies
  import opened CodeCost
  import opened OptimalTable
  import opened CodeLengths
  import opened DerivedTable
  import opened TableLengths
  import PseudoSymbol

  /** What the table builder relies on: counts of the 256 real symbols, at least one and
      at most 254 of them nonzero, and a total its sentinel exceeds. */
  ghost predicate Histogram(counts: seq<int>) {
    && |counts| == SYMBOLS && Nonnegative(counts)
    && Sum(counts[..PSEUDO]) + 1 <= MAX_FREQ
    && 1 <= |Occurring(counts)| <= 254
  }

  ghost function Occurring(counts: seq<int>): set<int>
    requires |counts| == SYMBOLS
  {
    set s | 0 <= s < PSEUDO && counts[s] != 0
  }

  /** A table for these symbols. */
  ghost predicate TableFor(symbols: set<int>, bits: seq<nat>, huffval: seq<int>) {
    && WellShaped(bits, huffval) && Legal(bits, huffval, 255)
    && forall s :: s in huffval[..|Sizes(bits, LONGEST)|] <==> s in symbols
  }

  /** The length of each symbol's code word before lengths are limited. */
  ghost function CodeSizes(tree: Tree): seq<int> {
    seq(SYMBOLS, s => if s in List(tree) then Depth(tree, s) else 0)
  }

  /** How many leaves there are on each level. */
  function Levels(tree: Tree): (levels: seq<nat>)
    ensures |levels| == MAX_CLEN + 1
  {
    seq(MAX_CLEN + 1, k requires 0 <= k <= MAX_CLEN => CountAt(tree, k))
  }

  /** The table is that of the tree: its levels, limited, and one code less; symbols in the
      order of their depths, those on one level by number. If no symbol is too deep, each has
      a code of just its depth. */
  ghost predicate TableOf(tree: Tree, n: nat, bits: seq<nat>, huffval: seq<int>) {
    && |bits| == LONGEST + 1 && |Sizes(bits, LONGEST)| <= |huffval|
    && Complete(Levels(tree), MAX_CLEN, n) && bits == Dropped(Shortened(Levels(tree), MAX_CLEN, n))
    && Ordered(CodeSizes(tree), huffval[..|Sizes(bits, LONGEST)|])
    && (Height(tree) <= LONGEST ==> OwnDepths(tree, bits, huffval))
  }

  ghost predicate OwnDepths(tree: Tree, bits: seq<nat>, huffval: seq<int>)
    requires |bits| == LONGEST + 1 && |Sizes(bits, LONGEST)| <= |huffval|
  {
    forall p :: 0 <= p < |Sizes(bits, LONGEST)| ==>
      0 <= huffval[p] < SYMBOLS && Sizes(bits, LONGEST)[p] == CodeSizes(tree)[huffval[p]]
  }

  method GenOptimalTable(freq: array<int>) returns (ok: bool, bits: seq<nat>, huffval: seq<int>, ghost tree: Tree)
    requires freq.Length == SYMBOLS && Histogram(freq[..])
    modifies freq
    ensures ok <==> Height(tree) <= MAX_CLEN
    ensures Leads(Singles().trees, old(freq[..])[PSEUDO := 1], tree)
    ensures Optimal(old(freq[..])[PSEUDO := 1], CodeSizes(tree))
    ensures Sum(old(freq[..PSEUDO])) + 1 >= Fib(Height(tree) + 2)
    ensures Sum(old(freq[..PSEUDO])) + 1 < 9227465 ==> ok
    ensures Sized(old(freq[..]), tree, CodeSizes(tree))
    ensures ok ==> TableFor(Occurring(old(freq[..])), bits, huffval)
    ensures ok ==> TableOf(tree, |Occurring(old(freq[..]))| + 1, bits, huffval)
  {
    hide Histogram, Distinct, List, Depth, Height, Sum, Occurring, Coded, OfSize, Complete, OneSpare, SortedList, Fib, TableFor, Total,
         Leads, Optimal, CodeSizes, Singles, Shortened, Dropped, Levels, TableOf, Ordered;
    ghost var before := freq[..];
    WithPseudoSymbol(before);
    freq[PSEUDO] := 1;
    ghost var counts := freq[..];
    var codesize := new int[SYMBOLS](_ => 0);
    var others := new int[SYMBOLS](_ => -1);
    tree := AssignCodeSizes(freq, codesize, others);
    IsCodeSizes(tree, codesize[..]);
    HeightBound(tree, before, Sum(counts));
    CodedSymbols(before, tree, codesize[..]);
    var lengths := new nat[MAX_CLEN + 1](_ => 0);
    ok := CountLengths(codesize, lengths);
    LengthsAndHeight(before, tree, codesize[..]);
    bits, huffval := [], [];
    if !ok {
      return;
    }
    ghost var n := |Occurring(before)| + 1;
    ghost var counted := lengths[..];
    TreeLengthsComplete(before, tree, codesize[..], counted);
    LimitLengths(lengths, n);
    bits := RemovePseudoSymbol(lengths, n);
    var list, count := SortSymbols(codesize);
    huffval := list[..];
    assert huffval[..count] == list[..count];
    TableBuilt(before, codesize[..], bits, huffval, count);
    TableFollows(before, tree, codesize[..], counted, bits, huffval, count);
  }

  lemma {:induction false} TableFollows(before: seq<int>, tree: Tree, codesize: seq<int>, counted: seq<nat>, bits: seq<nat>, huffval: seq<int>, count: nat)
    requires Histogram(before) && Sized(before, tree, codesize) && Leads(Singles().trees, before[PSEUDO := 1], tree)
    requires codesize == CodeSizes(tree) && counted == Levels(tree)
    requires forall k :: 0 <= k <= MAX_CLEN ==> counted[k] == if k == 0 then 0 else |OfSize(codesize, SYMBOLS, k)|
    requires Complete(counted, MAX_CLEN, |Occurring(before)| + 1)
    requires bits == Dropped(Shortened(counted, MAX_CLEN, |Occurring(before)| + 1))
    requires count == |Sizes(bits, LONGEST)| <= |huffval| && SortedList(codesize, huffval[..count], MAX_CLEN + 1, 0)
    ensures TableOf(tree, |Occurring(before)| + 1, bits, huffval)
  {
    hide Sum, Leads, Shortened, Dropped, Complete, Sizes, Distinct, Depth, Height;
    var list := huffval[..count];
    ListIsOrdered(codesize, list);
    if Height(tree) <= LONGEST {
      WithPseudoSymbol(before);
      PseudoSymbol.PseudoIsDeepest(before[PSEUDO := 1], tree);
      DepthsBelow(before, tree, codesize);
      hide Sized, Histogram;
      NoneTooLong(codesize, counted);
      ShortStays(counted, MAX_CLEN, |Occurring(before)| + 1);
      forall k | 0 <= k <= LONGEST
        ensures bits[k] == if k == 0 then 0 else |OfSize(codesize, PSEUDO, k)|
      {
        DroppedIsPseudo(codesize, counted, k);
      }
      SizesAreOwn(codesize, list, bits, LONGEST);
    }
  }

  lemma {:induction false} ListIsOrdered(codesize: seq<int>, list: seq<int>)
    requires |codesize| == SYMBOLS && SortedList(codesize, list, MAX_CLEN + 1, 0)
    ensures Ordered(codesize, list) && forall s :: s in list <==> s in Listed(codesize, MAX_CLEN + 1, 0)
  {
    hide Before;
    forall p | 0 <= p < |list|
      ensures 0 <= list[p] < PSEUDO
    {
      assert list[p] in list;
    }
  }

  lemma {:induction false} DepthsBelow(before: seq<int>, tree: Tree, codesize: seq<int>)
    requires Histogram(before) && Sized(before, tree, codesize) && PSEUDO in List(tree) && Depth(tree, PSEUDO) == Height(tree)
    ensures codesize[PSEUDO] == Height(tree) > 0 && forall s :: 0 <= s < SYMBOLS ==> 0 <= codesize[s] <= Height(tree)
  {
    SeveralLeaves(before, tree, codesize);
    DepthBound(tree, PSEUDO);
    forall s | 0 <= s < SYMBOLS
      ensures 0 <= codesize[s] <= Height(tree)
    {
      if s in List(tree) {
        DepthBound(tree, s);
      }
    }
  }

  lemma {:induction false} NoneTooLong(codesize: seq<int>, counted: seq<nat>)
    requires |codesize| == SYMBOLS && |counted| == MAX_CLEN + 1 && forall s :: 0 <= s < SYMBOLS ==> codesize[s] <= LONGEST
    requires forall k :: 1 <= k <= MAX_CLEN ==> counted[k] == |OfSize(codesize, SYMBOLS, k)|
    ensures forall k :: LONGEST < k <= MAX_CLEN ==> counted[k] == 0
  {
    forall k | LONGEST < k <= MAX_CLEN
      ensures counted[k] == 0
    {
      assert OfSize(codesize, SYMBOLS, k) == {};
    }
  }

  lemma {:induction false} IsCodeSizes(tree: Tree, codesize: seq<int>)
    requires |codesize| == SYMBOLS
    requires forall s :: 0 <= s < SYMBOLS ==> codesize[s] == if s in List(tree) then Depth(tree, s) else 0
    ensures codesize == CodeSizes(tree)
  {
  }

  lemma {:induction false} WithPseudoSymbol(before: seq<int>)
    requires Histogram(before)
    ensures Nonnegative(before[PSEUDO := 1]) && |before| == SYMBOLS
    ensures Sum(before[PSEUDO := 1]) == Sum(before[..PSEUDO]) + 1
    ensures 0 < Sum(before[PSEUDO := 1]) <= MAX_FREQ
  {
    var counts := before[PSEUDO := 1];
    assert counts[..|counts| - 1] == before[..PSEUDO];
    SumBounds(counts, PSEUDO);
    hide Occurring;
  }

  /** Below Fibonacci(35) counts no tree is higher than 32. */
  lemma {:induction false} HeightBound(tree: Tree, before: seq<int>, total: int)
    requires total >= Fib(Height(tree) + 2)
    ensures total < 9227465 ==> Height(tree) <= MAX_CLEN
  {
    Fib35();
    hide Fib;
    if Height(tree) + 2 >= 35 {
      FibMonotone(35, Height(tree) + 2);
    }
  }

  /** The tree of a histogram, with the code sizes read off it. */
  ghost predicate Sized(before: seq<int>, tree: Tree, codesize: seq<int>) {
    && |before| == |codesize| == SYMBOLS && Distinct(tree)
    && (forall s :: s in List(tree) <==> Symbol(s) && before[PSEUDO := 1][s] != 0)
    && forall s :: 0 <= s < SYMBOLS ==> codesize[s] == if s in List(tree) then Depth(tree, s) else 0
  }

  /** Two symbols never share a leaf. */
  lemma {:induction false} SeveralLeaves(before: seq<int>, tree: Tree, codesize: seq<int>)
    requires Histogram(before) && Sized(before, tree, codesize)
    ensures tree.Node?
  {
    hide Sum;
    assert Occurring(before) != {};
    var s :| s in Occurring(before);
    assert s in List(tree) && PSEUDO in List(tree);
  }

  lemma {:induction false} CodedSymbols(before: seq<int>, tree: Tree, codesize: seq<int>)
    requires Histogram(before) && Sized(before, tree, codesize)
    ensures Coded(codesize, PSEUDO) == Occurring(before)
    ensures |Coded(codesize, SYMBOLS)| == |Occurring(before)| + 1 <= 255
    ensures forall s :: 0 <= s < SYMBOLS ==> codesize[s] >= 0
  {
    SeveralLeaves(before, tree, codesize);
    forall s | Symbol(s)
      ensures codesize[s] > 0 <==> s == PSEUDO || s in Occurring(before)
      ensures codesize[s] >= 0
    {
      if s in List(tree) {
        DepthBound(tree, s);
      }
    }
    CountNext(codesize, PSEUDO);
    assert Coded(codesize, PSEUDO) == Occurring(before);
  }

  lemma {:induction false} HeightReached(t: Tree) returns (s: int)
    requires Distinct(t)
    ensures s in List(t) && Depth(t, s) == Height(t)
  {
    match t
    case Leaf(sym) => s := sym;
    case Node(left, right) =>
      if Height(left) < Height(right) {
        s := HeightReached(right);
      } else {
        s := HeightReached(left);
      }
  }

  lemma {:induction false} LengthsAndHeight(before: seq<int>, tree: Tree, codesize: seq<int>)
    requires Histogram(before) && Sized(before, tree, codesize)
    ensures (forall s :: 0 <= s < SYMBOLS ==> codesize[s] <= MAX_CLEN) <==> Height(tree) <= MAX_CLEN
  {
    hide Height, Sum, Occurring;
    var s := HeightReached(tree);
    assert Symbol(s) && codesize[s] == Height(tree);
    forall s | 0 <= s < SYMBOLS
      ensures codesize[s] <= Height(tree)
    {
      if s in List(tree) {
        DepthBound(tree, s);
      }
    }
  }

  lemma {:induction false} TreeLengthsComplete(before: seq<int>, tree: Tree, codesize: seq<int>, lengths: seq<nat>)
    requires Histogram(before) && Sized(before, tree, codesize) && Height(tree) <= MAX_CLEN
    requires |lengths| == MAX_CLEN + 1 && Total(lengths, MAX_CLEN) == |Coded(codesize, SYMBOLS)|
    requires forall k :: 0 <= k <= MAX_CLEN ==> lengths[k] == if k == 0 then 0 else |OfSize(codesize, SYMBOLS, k)|
    ensures Complete(lengths, MAX_CLEN, |Occurring(before)| + 1) && lengths == Levels(tree)
  {
    hide Total, Kraft, Shl, Height;
    SeveralLeaves(before, tree, codesize);
    CodedSymbols(before, tree, codesize);
    forall k | 0 <= k <= MAX_CLEN
      ensures lengths[k] == CountAt(tree, k)
    {
      if k > 0 {
        LevelIsSize(before, tree, codesize, k);
      }
    }
    KraftOfTree(tree, lengths, MAX_CLEN);
    TreeIsComplete(tree, MAX_CLEN);
  }

  lemma {:induction false} LevelIsSize(before: seq<int>, tree: Tree, codesize: seq<int>, k: nat)
    requires Sized(before, tree, codesize) && k > 0
    ensures |OfSize(codesize, SYMBOLS, k)| == CountAt(tree, k)
  {
    SymsAtCounted(tree, k);
    hide Distinct, List, Depth, CountAt;
    assert OfSize(codesize, SYMBOLS, k) == SymsAt(tree, k);
  }

  lemma {:induction false} TableBuilt(before: seq<int>, codesize: seq<int>, bits: seq<nat>, huffval: seq<int>, count: nat)
    requires |before| == |codesize| == SYMBOLS && Coded(codesize, PSEUDO) == Occurring(before)
    requires forall s :: 0 <= s < SYMBOLS ==> 0 <= codesize[s] <= MAX_CLEN
    requires OneSpare(bits, |Occurring(before)|)
    requires |huffval| == 256 && count <= 256 && forall p :: 0 <= p < 256 ==> 0 <= huffval[p] < 256
    requires SortedList(codesize, huffval[..count], MAX_CLEN + 1, 0)
    ensures TableFor(Occurring(before), bits, huffval) && count == |Sizes(bits, LONGEST)|
  {
    hide Space, Kraft, Total, Pow2, Shl, Sizes, Nondecreasing;
    assert Listed(codesize, MAX_CLEN + 1, 0) == Coded(codesize, PSEUDO);
    SizesOrdered(bits, LONGEST);
    SpaceIsKraft(bits, LONGEST);
    ShlNone(Kraft(bits, LONGEST));
    var last :| 1 <= last <= LONGEST && SpareAt(bits, last);
    assert |Sizes(bits, LONGEST)| == count;
    assert SymbolsOk(huffval[..count], 255);
  }

  lemma {:induction false} ShlNone(v: nat)
    ensures Shl(v, 0) == v
  {
  }

  // ----- what the codes cost

  function LongestOf(sizes: seq<nat>): (l: nat)
    ensures forall s :: 0 <= s < |sizes| ==> sizes[s] <= l
    ensures l > 0 ==> exists s :: 0 <= s < |sizes| && sizes[s] == l
  {
    if sizes == [] then 0
    else
      var l := LongestOf(sizes[..|sizes| - 1]);
      if sizes[|sizes| - 1] > l then sizes[|sizes| - 1] else l
  }

  /** No prefix-free code that keeps a word free costs less, if that word has at most as many
      bits as the longest here; with a longer one it saves no more than the difference. */
  ghost predicate Cheapest(counts: seq<int>, sizes: seq<nat>) {
    && |counts| == |sizes| == PSEUDO
    && forall words :: PrefixFreeWords(counts + [1], words) ==>
         Cost(counts, sizes) + LongestOf(sizes) <= Cost(counts, Lengths(words)[..PSEUDO]) + |words[PSEUDO]|
  }

  /** The sizes are the depths of the symbols. */
  ghost predicate SizesOfTree(tree: Tree, sizes: seq<nat>) {
    |sizes| == PSEUDO && forall s :: 0 <= s < PSEUDO ==> sizes[s] == CodeSizes(tree)[s]
  }

  /** A table made from the tree of a histogram; if that has no depth over 16, it is kept and
      no code is cheaper. */
  ghost predicate OptimalFor(before: seq<int>, tree: Tree, sizes: seq<nat>, bits: seq<nat>, huffval: seq<int>) {
    && |before| == SYMBOLS && Leads(Singles().trees, before[PSEUDO := 1], tree)
    && TableOf(tree, |Occurring(before)| + 1, bits, huffval)
    && (Height(tree) <= LONGEST ==> SizesOfTree(tree, sizes) && Cheapest(before[..PSEUDO], sizes))
  }

  lemma {:induction false} CostSplits(counts: seq<int>, sizes: seq<int>)
    requires |counts| == |sizes| == SYMBOLS
    ensures Cost(counts, sizes) == Cost(counts[..PSEUDO], sizes[..PSEUDO]) + counts[PSEUDO] * sizes[PSEUDO]
  {
    hide Sum;
    var products := Products(counts, sizes);
    assert products[..|products| - 1] == Products(counts[..PSEUDO], sizes[..PSEUDO]);
    SumLast(products);
  }

  lemma {:induction false} SumLast(s: seq<int>)
    requires s != []
    ensures Sum(s) == Sum(s[..|s| - 1]) + s[|s| - 1]
  {
  }

  /** A deepest leaf is not alone on its level. */
  lemma {:induction false} DeepestPair(t: Tree, s: int) returns (s2: int)
    requires t.Node? && Distinct(t) && s in List(t) && Depth(t, s) == Height(t)
    ensures s2 in List(t) && s2 != s && Depth(t, s2) == Height(t)
  {
    var part := if s in List(t.left) then t.left else t.right;
    DepthBound(part, s);
    if part.Node? {
      s2 := DeepestPair(part, s);
      NodeDistinct(t);
    } else {
      s2 := if s in List(t.left) then t.right.sym else t.left.sym;
    }
  }

  lemma {:induction false} LongestIsHeight(before: seq<int>, tree: Tree, sizes: seq<nat>)
    requires Histogram(before) && Sized(before, tree, CodeSizes(tree)) && SizesOfTree(tree, sizes)
    requires PSEUDO in List(tree) && Depth(tree, PSEUDO) == Height(tree)
    ensures LongestOf(sizes) == Height(tree)
  {
    DepthsBelow(before, tree, CodeSizes(tree));
    SeveralLeaves(before, tree, CodeSizes(tree));
    hide Histogram, LongestOf;
    var s := DeepestPair(tree, PSEUDO);
    hide Distinct, Depth, Height;
    assert Symbol(s);
    assert sizes[s] == Height(tree);
  }

  /** Sizes that are the depths of an optimal tree cost least. */
  lemma {:induction false} TreeSizesCheapest(before: seq<int>, tree: Tree, sizes: seq<nat>)
    requires Histogram(before) && Sized(before, tree, CodeSizes(tree)) && SizesOfTree(tree, sizes)
    requires Leads(Singles().trees, before[PSEUDO := 1], tree) && Optimal(before[PSEUDO := 1], CodeSizes(tree))
    ensures Cheapest(before[..PSEUDO], sizes)
  {
    WithPseudoSymbol(before);
    hide Sum, Leads, Optimal, Height, Depth, Distinct, List;
    var counts, depths, own := before[PSEUDO := 1], CodeSizes(tree), before[..PSEUDO];
    PseudoSymbol.PseudoIsDeepest(counts, tree);
    LongestIsHeight(before, tree, sizes);
    DepthsBelow(before, tree, depths);
    hide Histogram, Sized, LongestOf, CodeSizes, Cost;
    CostSplits(counts, depths);
    assert counts[..PSEUDO] == own && depths[..PSEUDO] == sizes && counts == own + [1];
    forall words | PrefixFreeWords(own + [1], words)
      ensures Cost(own, sizes) + LongestOf(sizes) <= Cost(own, Lengths(words)[..PSEUDO]) + |words[PSEUDO]|
    {
      NoCodeIsCheaper(counts, depths, words);
      CostSplits(counts, Lengths(words));
    }
  }

  /** From a histogram to the codes: the two routines together never fail on fewer than
      Fibonacci(35) occurrences, every symbol that occurs has a code word of at most 16
      bits, no code word begins another one, and none is all ones. A DC table has symbols
      up to 15 only. */
  method OptimalCodes(freq: array<int>, isDC: bool)
    returns (ok: bool, ehufco: seq<nat>, ehufsi: seq<nat>, bits: seq<nat>, huffval: seq<int>)
    requires freq.Length == SYMBOLS && Histogram(freq[..])
    requires isDC ==> forall s :: 16 <= s < PSEUDO ==> freq[..][s] == 0
    modifies freq
    ensures Sum(old(freq[..PSEUDO])) + 1 < 9227465 ==> ok
    ensures ok ==> |ehufco| == |ehufsi| == 256
    ensures ok ==> forall s :: 0 <= s < PSEUDO ==> (ehufsi[s] > 0 <==> old(freq[..])[s] != 0)
    ensures ok ==> forall s :: 0 <= s < PSEUDO && ehufsi[s] > 0 ==> ehufsi[s] <= 16 && ehufco[s] + 1 < Pow2(ehufsi[s])
    ensures ok ==> forall s, t :: 0 <= s < PSEUDO && 0 <= t < PSEUDO && ehufsi[s] > 0 && ehufsi[t] > 0 && s != t ==>
              !(CodeWord(ehufco, ehufsi, s) <= CodeWord(ehufco, ehufsi, t))
    ensures ok ==> WellShaped(bits, huffval) && Legal(bits, huffval, if isDC then 15 else 255)
                   && Derived(bits, huffval, ehufco, ehufsi)
    ensures ok ==> exists tree :: OptimalFor(old(freq[..]), tree, ehufsi, bits, huffval)
    ensures ok && Sum(old(freq[..PSEUDO])) + 1 < 4181 ==> Cheapest(old(freq[..PSEUDO]), ehufsi)
  {
    hide Histogram, Sum, Legal, Derived, TableFor, CodeWord, Shl, TableOf, Cheapest, Leads, Optimal, Sized, CodeSizes, Height, Fib, SizesOfTree;
    ghost var before := freq[..];
    ghost var tree;
    ok, bits, huffval, tree := GenOptimalTable(freq);
    ehufco, ehufsi := [], [];
    if !ok {
      return;
    }
    var max := if isDC then 15 else 255;
    UsableTable(Occurring(before), bits, huffval, max);
    ok, ehufco, ehufsi := MakeDerivedTable(bits, huffval, isDC);
    DerivedSymbols(Occurring(before), bits, huffval, ehufco, ehufsi);
    DerivedOptimal(before, tree, ehufco, ehufsi, bits, huffval);
    ShortTree(tree, Sum(before[..PSEUDO]) + 1);
    forall s, t | 0 <= s < PSEUDO && 0 <= t < PSEUDO && ehufsi[s] > 0 && ehufsi[t] > 0
      ensures ehufsi[s] <= 16 && ehufco[s] + 1 < Pow2(ehufsi[s])
      ensures s != t ==> !(CodeWord(ehufco, ehufsi, s) <= CodeWord(ehufco, ehufsi, t))
    {
      PrefixFree(bits, huffval, max, ehufco, ehufsi, s, t);
    }
  }

  /** Below Fibonacci(19) counts no tree is higher than 16. */
  lemma {:induction false} ShortTree(tree: Tree, total: int)
    requires total >= Fib(Height(tree) + 2)
    ensures total < 4181 ==> Height(tree) <= LONGEST
  {
    assert Fib(10) == 55 && Fib(19) == 4181;
    hide Fib;
    if Height(tree) + 2 >= 19 {
      FibMonotone(19, Height(tree) + 2);
    }
  }

  lemma {:induction false} DerivedOptimal(before: seq<int>, tree: Tree, ehufco: seq<nat>, ehufsi: seq<nat>, bits: seq<nat>, huffval: seq<int>)
    requires Histogram(before) && Sized(before, tree, CodeSizes(tree)) && Optimal(before[PSEUDO := 1], CodeSizes(tree))
    requires Leads(Singles().trees, before[PSEUDO := 1], tree) && TableOf(tree, |Occurring(before)| + 1, bits, huffval)
    requires TableFor(Occurring(before), bits, huffval) && Derived(bits, huffval, ehufco, ehufsi)
    ensures OptimalFor(before, tree, ehufsi, bits, huffval)
  {
    assert |before| == SYMBOLS;
    hide Histogram, Sized, Optimal, Leads, TableOf, TableFor, Derived, CodeSizes, SizesOfTree, Cheapest, Height;
    if Height(tree) <= LONGEST {
      DerivedDepths(before, tree, ehufco, ehufsi, bits, huffval);
      TreeSizesCheapest(before, tree, ehufsi);
    }
  }

  lemma {:induction false} DerivedDepths(before: seq<int>, tree: Tree, ehufco: seq<nat>, ehufsi: seq<nat>, bits: seq<nat>, huffval: seq<int>)
    requires Histogram(before) && Sized(before, tree, CodeSizes(tree))
    requires TableOf(tree, |Occurring(before)| + 1, bits, huffval) && Height(tree) <= LONGEST
    requires TableFor(Occurring(before), bits, huffval) && Derived(bits, huffval, ehufco, ehufsi)
    ensures SizesOfTree(tree, ehufsi)
  {
    CodedSymbols(before, tree, CodeSizes(tree));
    hide Sizes, CodeAt, Nondecreasing, Legal, Complete, Shortened, Dropped, Levels, Distinct, List, Depth, Height, Sum, CodeSizes, Ordered;
    var list := huffval[..|Sizes(bits, LONGEST)|];
    forall s | 0 <= s < PSEUDO
      ensures ehufsi[s] == CodeSizes(tree)[s]
    {
      if s in list {
        var p :| 0 <= p < |list| && list[p] == s;
        assert list[p] == huffval[p];
      } else {
        assert s !in Coded(CodeSizes(tree), PSEUDO);
      }
    }
  }

  lemma {:induction false} UsableTable(symbols: set<int>, bits: seq<nat>, huffval: seq<int>, max: int)
    requires TableFor(symbols, bits, huffval) && forall s :: s in symbols ==> 0 <= s <= max
    ensures WellShaped(bits, huffval) && Legal(bits, huffval, max)
  {
    hide Space, Sizes;
    var list := huffval[..|Sizes(bits, LONGEST)|];
    assert forall p :: 0 <= p < |list| ==> list[p] in list;
  }

  lemma {:induction false} DerivedSymbols(symbols: set<int>, bits: seq<nat>, huffval: seq<int>, ehufco: seq<nat>, ehufsi: seq<nat>)
    requires TableFor(symbols, bits, huffval) && Derived(bits, huffval, ehufco, ehufsi)
    ensures |ehufco| == |ehufsi| == 256 && forall s :: 0 <= s < 256 ==> (ehufsi[s] > 0 <==> s in symbols)
  {
    hide Sizes, CodeAt, Nondecreasing, Legal;
  }
}
