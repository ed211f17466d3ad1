/** Construction of optimal Huffman tables (jchuff.c, jpeg_gen_optimal_table; section
    K.2 of ITU-T T.81). */
module OptimalTable {
  import opened Shifts
  import opened HuffmanTree
  import opened Frequencies
  import opened CodeCost

  const MAX_CLEN := 32

  // ----- the state of the merging loop

  predicate Symbol(s: int) {
    0 <= s < SYMBOLS
  }

  /** The `others` links chain the symbols of a list, first to last. */
  predicate Linked(others: seq<int>, list: seq<int>)
    requires |others| == SYMBOLS
  {
    && list != [] && (forall p :: 0 <= p < |list| ==> Symbol(list[p]))
    && (forall p :: 0 <= p < |list| - 1 ==> others[list[p]] == list[p + 1])
    && others[list[|list| - 1]] == -1
  }

  /** The trees built so far: one for every nonzero entry of `freq`. `root` says which
      tree a symbol is in. */
  datatype Forest = Forest(trees: seq<Tree>, root: seq<int>)

  predicate Shape(forest: Forest, counts: seq<int>, freq: seq<int>) {
    |forest.trees| == |forest.root| == |counts| == |freq| == SYMBOLS
  }

  /** Every symbol that occurs is in exactly one tree, and only those are. */
  ghost predicate Partition(forest: Forest, counts: seq<int>, freq: seq<int>)
    requires Shape(forest, counts, freq)
  {
    && (forall r :: Alive(freq, r) ==> Distinct(forest.trees[r]))
    && (forall r :: Alive(freq, r) ==> forall s :: s in List(forest.trees[r]) ==>
          Symbol(s) && counts[s] != 0 && forest.root[s] == r)
    && forall s :: Symbol(s) && counts[s] != 0 ==>
          Alive(freq, forest.root[s]) && s in List(forest.trees[forest.root[s]])
  }

  ghost predicate Chained(forest: Forest, freq: seq<int>, others: seq<int>)
    requires |forest.trees| == |freq| == |others| == SYMBOLS
  {
    && (forall r :: Alive(freq, r) ==> Linked(others, List(forest.trees[r])) && List(forest.trees[r])[0] == r)
  }

  /** `codesize` holds every symbol's depth in its tree. */
  ghost predicate Measured(forest: Forest, counts: seq<int>, freq: seq<int>, codesize: seq<int>)
    requires Shape(forest, counts, freq) && |codesize| == SYMBOLS && Partition(forest, counts, freq)
  {
    forall s :: Symbol(s) ==>
      codesize[s] == if counts[s] == 0 then 0 else Depth(forest.trees[forest.root[s]], s)
  }

  /** Tall trees are heavy, and no other tree is much lighter. */
  ghost predicate Heavy(forest: Forest, freq: seq<int>)
    requires |forest.trees| == |freq| == SYMBOLS
  {
    && (forall r :: Alive(freq, r) ==> freq[r] >= Fib(Height(forest.trees[r]) + 2))
    && forall r, s :: Alive(freq, r) && Alive(freq, s) && r != s ==> freq[s] >= Fib(Height(forest.trees[r]) + 1)
  }

  /** The counts of the symbols of one tree. */
  function Inside(root: seq<int>, counts: seq<int>, r: int): seq<int>
    requires |root| == |counts|
  {
    seq(|counts|, s requires 0 <= s < |counts| => if root[s] == r then counts[s] else 0)
  }

  /** A tree counts for its symbols. */
  ghost predicate Weighed(forest: Forest, counts: seq<int>, freq: seq<int>)
    requires Shape(forest, counts, freq)
  {
    forall r :: Symbol(r) ==> freq[r] == Sum(Inside(forest.root, counts, r))
  }

  // ----- the smallest count

  /** The smallest nonzero count but that of `except`; the larger symbol on a tie. */
  predicate Smallest(freq: seq<int>, except: int, c: int, n: int) {
    && (c == -1 ==> forall i :: 0 <= i < n && i < |freq| && i != except ==> freq[i] == 0)
    && (c != -1 ==>
          && Alive(freq, c) && c < n && c != except
          && forall i :: 0 <= i < n && i < |freq| && i != except && freq[i] != 0 ==>
               freq[c] <= freq[i] && (freq[c] == freq[i] ==> i <= c))
  }

  method FindSmallest(freq: array<int>, except: int) returns (c: int)
    requires freq.Length == SYMBOLS && Nonnegative(freq[..])
    requires forall i :: 0 <= i < SYMBOLS ==> freq[i] <= MAX_FREQ
    ensures c >= -1 && Smallest(freq[..], except, c, SYMBOLS)
  {
    c := -1;
    var v := MAX_FREQ;
    for i := 0 to SYMBOLS
      invariant c >= -1 && Smallest(freq[..], except, c, i)
      invariant v == if c == -1 then MAX_FREQ else freq[c]
    {
      if freq[i] != 0 && freq[i] <= v && i != except {
        v := freq[i];
        c := i;
      }
    }
  }

  // ----- one merge

  lemma {:induction false} LinkAt(others: seq<int>, list: seq<int>, p: nat)
    requires |others| == SYMBOLS && Linked(others, list) && p < |list|
    ensures others[list[p]] == if p < |list| - 1 then list[p + 1] else -1
  {
  }

  /** Increment the code size of everything in a chain; returns its end. */
  method Deepen(codesize: array<int>, others: array<int>, first: nat, ghost list: seq<int>) returns (c: nat)
    requires codesize.Length == others.Length == SYMBOLS && codesize != others
    requires Linked(others[..], list) && list[0] == first
    requires forall p, q :: 0 <= p < q < |list| ==> list[p] != list[q]
    modifies codesize
    ensures c == list[|list| - 1]
    ensures forall s :: 0 <= s < SYMBOLS ==> codesize[s] == old(codesize[s]) + if s in list then 1 else 0
  {
    c := first;
    codesize[c] := codesize[c] + 1;
    ghost var p, links := 0, others[..];
    while others[c] >= 0
      invariant others[..] == links && p < |list| && c == list[p] && c < SYMBOLS
      invariant forall s :: 0 <= s < SYMBOLS ==> codesize[s] == old(codesize[s]) + if s in list[..p + 1] then 1 else 0
      decreases |list| - p
    {
      LinkAt(links, list, p);
      c := others[c];
      p := p + 1;
      codesize[c] := codesize[c] + 1;
      assert list[..p + 1] == list[..p] + [list[p]];
    }
    LinkAt(links, list, p);
    assert list[..p + 1] == list;
  }

  ghost function Merged(forest: Forest, c1: nat, c2: nat): Forest
    requires |forest.trees| == |forest.root| == SYMBOLS && c1 < SYMBOLS && c2 < SYMBOLS
  {
    Forest(forest.trees[c1 := Node(forest.trees[c1], forest.trees[c2])],
           seq(SYMBOLS, s requires 0 <= s < SYMBOLS => if forest.root[s] == c2 then c1 else forest.root[s]))
  }

  lemma {:induction false} MergeLists(forest: Forest, counts: seq<int>, freq: seq<int>, c1: nat, c2: nat)
    requires Shape(forest, counts, freq) && Partition(forest, counts, freq) && Mergeable(freq, c1, c2)
    ensures forall s :: s in List(forest.trees[c1]) ==> s !in List(forest.trees[c2])
    ensures Distinct(Node(forest.trees[c1], forest.trees[c2]))
    ensures List(Node(forest.trees[c1], forest.trees[c2])) == List(forest.trees[c1]) + List(forest.trees[c2])
  {
  }

  lemma {:induction false} MergePartition(forest: Forest, counts: seq<int>, freq: seq<int>, c1: nat, c2: nat)
    requires Shape(forest, counts, freq) && Partition(forest, counts, freq) && Mergeable(freq, c1, c2)
    ensures Partition(Merged(forest, c1, c2), counts, MergedFreq(freq, c1, c2))
  {
    MergeLists(forest, counts, freq, c1, c2);
    MergeAlive(freq, c1, c2);
    hide Distinct, MergedFreq;
    NodeList(Node(forest.trees[c1], forest.trees[c2]));
    hide List;
  }

  lemma {:induction false} MergeMeasured(forest: Forest, counts: seq<int>, freq: seq<int>, c1: nat, c2: nat, codesize: seq<int>, deeper: seq<int>)
    requires Shape(forest, counts, freq) && Partition(forest, counts, freq) && Mergeable(freq, c1, c2)
    requires |codesize| == |deeper| == SYMBOLS && Measured(forest, counts, freq, codesize)
    requires forall s :: Symbol(s) ==>
               deeper[s] == codesize[s] + (if s in List(forest.trees[c1]) then 1 else 0) + (if s in List(forest.trees[c2]) then 1 else 0)
    ensures Partition(Merged(forest, c1, c2), counts, MergedFreq(freq, c1, c2))
    ensures Measured(Merged(forest, c1, c2), counts, MergedFreq(freq, c1, c2), deeper)
  {
    MergePartition(forest, counts, freq, c1, c2);
    MergeLists(forest, counts, freq, c1, c2);
    hide Distinct, MergedFreq, List;
  }

  lemma {:induction false} MergeHeavy(forest: Forest, freq: seq<int>, c1: nat, c2: nat)
    requires |forest.trees| == |forest.root| == |freq| == SYMBOLS && Heavy(forest, freq) && Mergeable(freq, c1, c2)
    ensures Heavy(Merged(forest, c1, c2), MergedFreq(freq, c1, c2))
  {
    MergeAlive(freq, c1, c2);
    var h1, h2 := Height(forest.trees[c1]), Height(forest.trees[c2]);
    var h := if h1 < h2 then h2 else h1;
    assert Height(Merged(forest, c1, c2).trees[c1]) == h + 1;
    assert Fib(h + 3) == Fib(h + 2) + Fib(h + 1);
    hide Fib, Height;
  }

  lemma {:induction false} LinkLists(others: seq<int>, a: seq<int>, b: seq<int>)
    requires |others| == SYMBOLS && Linked(others, a) && Linked(others, b)
    requires forall s :: s in a ==> s !in b
    requires forall p, q :: 0 <= p < q < |a| ==> a[p] != a[q]
    ensures Linked(others[a[|a| - 1] := b[0]], a + b)
  {
    var joined, n := a + b, others[a[|a| - 1] := b[0]];
    forall p | 0 <= p < |joined|
      ensures Symbol(joined[p]) && n[joined[p]] == if p == |joined| - 1 then -1 else joined[p + 1]
    {
      if p >= |a| {
        assert joined[p] == b[p - |a|] && joined[p] in b && a[|a| - 1] in a;
      } else {
        assert joined[p] == a[p];
      }
    }
    assert joined[|joined| - 1] == b[|b| - 1] && b[|b| - 1] in b;
  }

  lemma {:induction false} LinkUntouched(others: seq<int>, list: seq<int>, s: nat, v: int)
    requires |others| == SYMBOLS && Linked(others, list) && s < SYMBOLS && s !in list
    ensures Linked(others[s := v], list)
  {
  }

  lemma {:induction false} MergeChained(forest: Forest, counts: seq<int>, freq: seq<int>, c1: nat, c2: nat, others: seq<int>, end: nat)
    requires Shape(forest, counts, freq) && Partition(forest, counts, freq) && Mergeable(freq, c1, c2)
    requires |others| == SYMBOLS && Chained(forest, freq, others)
    requires var list := List(forest.trees[c1]); end == list[|list| - 1]
    ensures end < SYMBOLS && Chained(Merged(forest, c1, c2), MergedFreq(freq, c1, c2), others[end := c2])
  {
    MergeLists(forest, counts, freq, c1, c2);
    MergeAlive(freq, c1, c2);
    var list1, list2 := List(forest.trees[c1]), List(forest.trees[c2]);
    DistinctList(forest.trees[c1]);
    assert end in list1;
    LinkLists(others, list1, list2);
    var after, f := Merged(forest, c1, c2), MergedFreq(freq, c1, c2);
    hide Distinct, MergedFreq, Linked, List;
    forall r | Alive(f, r)
      ensures Linked(others[end := c2], List(after.trees[r])) && List(after.trees[r])[0] == r
    {
      if r != c1 {
        LinkUntouched(others, List(forest.trees[r]), end, c2);
      }
    }
  }

  lemma {:induction false} MergeWeighed(forest: Forest, counts: seq<int>, freq: seq<int>, c1: nat, c2: nat)
    requires Shape(forest, counts, freq) && Weighed(forest, counts, freq) && Mergeable(freq, c1, c2)
    ensures Weighed(Merged(forest, c1, c2), counts, MergedFreq(freq, c1, c2))
  {
    hide Sum;
    var before, after := forest.root, Merged(forest, c1, c2).root;
    forall r | Symbol(r)
      ensures MergedFreq(freq, c1, c2)[r] == Sum(Inside(after, counts, r))
    {
      if r == c1 {
        SumAdds(Inside(before, counts, c1), Inside(before, counts, c2), Inside(after, counts, c1));
      } else if r == c2 {
        SumZero(Inside(after, counts, c2));
      } else {
        assert Inside(after, counts, r) == Inside(before, counts, r);
      }
    }
  }

  /** Deepening two trees costs as many bits as their symbols occur. */
  lemma {:induction false} MergeCosts(forest: Forest, counts: seq<int>, freq: seq<int>, c1: nat, c2: nat, codesize: seq<int>, deeper: seq<int>)
    requires Shape(forest, counts, freq) && Partition(forest, counts, freq) && Weighed(forest, counts, freq) && Mergeable(freq, c1, c2)
    requires |codesize| == |deeper| == SYMBOLS
    requires forall s :: Symbol(s) ==>
               deeper[s] == codesize[s] + (if s in List(forest.trees[c1]) then 1 else 0) + (if s in List(forest.trees[c2]) then 1 else 0)
    ensures Cost(counts, deeper) == Cost(counts, codesize) + freq[c1] + freq[c2]
  {
    hide Sum, Distinct, List;
    var in1, in2, before := Inside(forest.root, counts, c1), Inside(forest.root, counts, c2), Products(counts, codesize);
    var both := seq(SYMBOLS, s requires 0 <= s < SYMBOLS => in1[s] + in2[s]);
    SumAdds(in1, in2, both);
    forall s | 0 <= s < SYMBOLS
      ensures Products(counts, deeper)[s] == before[s] + both[s]
    {
      if counts[s] != 0 {
        Deepened(forest, counts, freq, c1, c2, s);
        var deep := (if s in List(forest.trees[c1]) then 1 else 0) + (if s in List(forest.trees[c2]) then 1 else 0);
        assert counts[s] * (codesize[s] + deep) == counts[s] * codesize[s] + counts[s] * deep;
      }
    }
    SumAdds(before, both, Products(counts, deeper));
  }

  lemma {:induction false} Deepened(forest: Forest, counts: seq<int>, freq: seq<int>, c1: nat, c2: nat, s: nat)
    requires Shape(forest, counts, freq) && Partition(forest, counts, freq) && Mergeable(freq, c1, c2) && s < SYMBOLS && counts[s] != 0
    ensures s in List(forest.trees[c1]) <==> forest.root[s] == c1
    ensures s in List(forest.trees[c2]) <==> forest.root[s] == c2
  {
    hide Distinct, List;
  }

  // ----- the merging loop

  ghost predicate Building(forest: Forest, counts: seq<int>, freq: seq<int>, codesize: seq<int>, others: seq<int>) {
    && Shape(forest, counts, freq) && |codesize| == |others| == SYMBOLS
    && Nonnegative(freq) && Sum(freq) == Sum(counts)
    && Partition(forest, counts, freq) && Chained(forest, freq, others)
    && Measured(forest, counts, freq, codesize) && Heavy(forest, freq)
    && Weighed(forest, counts, freq) && Frugal(counts, freq, codesize)
  }

  /** Where merging ends that always takes the two smallest counts, the larger symbol on a
      tie. */
  ghost predicate Leads(trees: seq<Tree>, freq: seq<int>, tree: Tree)
    requires |trees| == |freq| == SYMBOLS
    decreases AliveSet(freq), 1
  {
    exists c1, c2 :: Smallest(freq, -1, c1, SYMBOLS) && Smallest(freq, c1, c2, SYMBOLS) && LeadsBy(trees, freq, c1, c2, tree)
  }

  ghost predicate LeadsBy(trees: seq<Tree>, freq: seq<int>, c1: int, c2: int, tree: Tree)
    requires |trees| == |freq| == SYMBOLS
    decreases AliveSet(freq), 0
  {
    && 0 <= c1 < SYMBOLS
    && if c2 < 0 then
         tree == trees[c1]
       else
         && Mergeable(freq, c1, c2)
         && (MergeAlive(freq, c1, c2);
             Leads(trees[c1 := Node(trees[c1], trees[c2])], MergedFreq(freq, c1, c2), tree))
  }

  ghost function Singles(): Forest {
    Forest(seq(SYMBOLS, s => Leaf(s)), seq(SYMBOLS, s => s))
  }

  lemma {:induction false} StartBuilding(counts: seq<int>, codesize: seq<int>, others: seq<int>)
    requires |counts| == |codesize| == |others| == SYMBOLS && Nonnegative(counts)
    requires forall s :: 0 <= s < SYMBOLS ==> codesize[s] == 0 && others[s] == -1
    ensures Building(Singles(), counts, counts, codesize, others)
  {
    assert Fib(1) == 1 && Fib(2) == 1;
    hide Sum, Fib, Frugal;
    StartFrugal(counts, codesize);
    forall r | Symbol(r)
      ensures counts[r] == Sum(Inside(Singles().root, counts, r))
    {
      var inside := Inside(Singles().root, counts, r);
      SumUpdate(inside, r, 0);
      SumZero(inside[r := 0]);
    }
  }

  /** Huffman's procedure: every symbol that occurs gets its depth in one tree, and no code
      is cheaper. */
  method AssignCodeSizes(freq: array<int>, codesize: array<int>, others: array<int>) returns (ghost tree: Tree)
    requires freq.Length == codesize.Length == others.Length == SYMBOLS
    requires freq != codesize && freq != others && codesize != others
    requires Nonnegative(freq[..]) && 0 < Sum(freq[..]) <= MAX_FREQ
    requires forall s :: 0 <= s < SYMBOLS ==> codesize[s] == 0 && others[s] == -1
    modifies freq, codesize, others
    ensures Distinct(tree) && forall s :: s in List(tree) <==> Symbol(s) && old(freq[..])[s] != 0
    ensures forall s :: 0 <= s < SYMBOLS ==> codesize[s] == if s in List(tree) then Depth(tree, s) else 0
    ensures Sum(old(freq[..])) >= Fib(Height(tree) + 2)
    ensures Optimal(old(freq[..]), codesize[..])
    ensures Leads(Singles().trees, old(freq[..]), tree)
  {
    hide Distinct, Partition, Chained, Measured, Heavy, Weighed, Frugal, Optimal, Linked, List, Sum, Fib, Height, Depth;
    ghost var counts, forest := freq[..], Singles();
    StartBuilding(counts, codesize[..], others[..]);
    var c1;
    while true
      invariant Building(forest, counts, freq[..], codesize[..], others[..])
      invariant counts == old(freq[..])
      invariant forall t :: Leads(forest.trees, freq[..], t) ==> Leads(Singles().trees, counts, t)
      decreases AliveSet(freq[..])
    {
      ghost var f := freq[..];
      CountsBounded(f);
      c1 := FindSmallest(freq, -1);
      var c2 := FindSmallest(freq, c1);
      if c2 < 0 {
        break;
      }
      ghost var trees := forest.trees;
      forest := Merge(forest, counts, freq, codesize, others, c1, c2);
      MergeAlive(f, c1, c2);
      assert forall t :: Leads(forest.trees, freq[..], t) ==> Leads(trees, f, t);
    }
    tree := Finished(forest, counts, freq[..], codesize[..], others[..], c1);
  }

  method Merge(ghost forest: Forest, ghost counts: seq<int>, freq: array<int>, codesize: array<int>, others: array<int>,
               c1: nat, c2: nat) returns (ghost merged: Forest)
    requires freq.Length == codesize.Length == others.Length == SYMBOLS
    requires freq != codesize && freq != others && codesize != others
    requires Building(forest, counts, freq[..], codesize[..], others[..]) && Mergeable(freq[..], c1, c2)
    modifies freq, codesize, others
    ensures freq[..] == MergedFreq(old(freq[..]), c1, c2) && merged == Merged(forest, c1, c2)
    ensures Building(merged, counts, freq[..], codesize[..], others[..])
  {
    hide Distinct, Partition, Measured, Heavy, Linked, List, Sum, Weighed, Frugal, Cost;
    ghost var f, o, sizes := freq[..], others[..], codesize[..];
    ghost var list1, list2 := List(forest.trees[c1]), List(forest.trees[c2]);
    MergeAlive(f, c1, c2);
    MergePartition(forest, counts, f, c1, c2);
    MergeHeavy(forest, f, c1, c2);
    ListsUsable(forest, counts, f, o, c1);
    ListsUsable(forest, counts, f, o, c2);
    MergeLists(forest, counts, f, c1, c2);
    freq[c1] := freq[c1] + freq[c2];
    freq[c2] := 0;
    var end := Deepen(codesize, others, c1, list1);
    MergeChained(forest, counts, f, c1, c2, o, end);
    LinkUntouched(o, list2, end, c2);
    others[end] := c2;
    assert others[..] == o[end := c2];
    var end2 := Deepen(codesize, others, c2, list2);
    merged := Merged(forest, c1, c2);
    MergeMeasured(forest, counts, f, c1, c2, sizes, codesize[..]);
    MergeWeighed(forest, counts, f, c1, c2);
    MergeCosts(forest, counts, f, c1, c2, sizes, codesize[..]);
    MergeFrugal(counts, f, sizes, codesize[..], c1, c2);
  }

  lemma {:induction false} ListsUsable(forest: Forest, counts: seq<int>, freq: seq<int>, others: seq<int>, c: nat)
    requires Shape(forest, counts, freq) && Partition(forest, counts, freq) && |others| == SYMBOLS
    requires Chained(forest, freq, others) && Alive(freq, c)
    ensures var list := List(forest.trees[c]);
            && Linked(others, list) && list[0] == c && list[|list| - 1] in list
            && forall p, q :: 0 <= p < q < |list| ==> list[p] != list[q]
  {
    DistinctList(forest.trees[c]);
  }

  /** With one count left, its tree holds everything. */
  lemma {:induction false} Finished(forest: Forest, counts: seq<int>, freq: seq<int>, codesize: seq<int>, others: seq<int>, c1: int)
    returns (tree: Tree)
    requires Building(forest, counts, freq, codesize, others) && 0 < Sum(counts)
    requires Smallest(freq, -1, c1, SYMBOLS) && Smallest(freq, c1, -1, SYMBOLS)
    ensures Distinct(tree) && forall s :: s in List(tree) <==> Symbol(s) && counts[s] != 0
    ensures forall s :: 0 <= s < SYMBOLS ==> codesize[s] == if s in List(tree) then Depth(tree, s) else 0
    ensures Sum(counts) >= Fib(Height(tree) + 2)
    ensures Optimal(counts, codesize) && Leads(forest.trees, freq, tree)
  {
    hide Distinct, List, Fib, Height, Depth, Weighed, Frugal, Optimal;
    FrugalOptimal(counts, freq, codesize);
    if c1 == -1 {
      SumZero(freq);
    }
    SumBounds(freq, c1);
    tree := forest.trees[c1];
  }
}
