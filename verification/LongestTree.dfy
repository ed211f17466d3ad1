/** The overflow error of the table builder can occur: counts whose total is Fibonacci(35),
    the least possible, and whose tree has height 33. */
module LongestTree {
  import opened HuffmanTree
  import opened Frequencies
  import opened OptimalTable
  import CodeLengths
  import HuffmanTables

  function Stair(s: int): nat
    requires s <= 33
  {
    Fib(33 - s)
  }

  /** Symbol `a` stands for all that has been merged, lower symbols for themselves. */
  ghost predicate Staircase(trees: seq<Tree>, freq: seq<int>, a: nat) {
    && a <= 31 && |trees| == |freq| == SYMBOLS
    && freq[a] == Stair(a - 2) && Height(trees[a]) == 33 - a
    && (forall s :: 0 <= s < a ==> freq[s] == Stair(s) && Height(trees[s]) == 0)
    && forall s :: a < s < SYMBOLS ==> freq[s] == 0
  }

  lemma {:induction false} Steps(a: nat)
    requires a <= 31
    ensures Stair(a - 2) > 0 && forall s :: 0 <= s < a ==> Stair(s) > 0
    ensures a > 0 ==> Stair(a - 1) < Stair(a - 2) && Stair(a - 3) == Stair(a - 2) + Stair(a - 1)
    ensures forall s :: 0 <= s < a - 1 ==> Stair(s) >= Stair(a - 2)
  {
    FibMonotone(2, 35 - a);
    if a > 0 {
      FibMonotone(1, 33 - a);
    }
    forall s | 0 <= s < a
      ensures Stair(s) > 0 && (s < a - 1 ==> Stair(s) >= Stair(a - 2))
    {
      FibMonotone(2, 33 - s);
      if s < a - 1 {
        FibMonotone(35 - a, 33 - s);
      }
    }
  }

  lemma {:induction false} SmallestUnique(freq: seq<int>, except: int, c: int, d: int)
    requires |freq| == SYMBOLS && Smallest(freq, except, c, SYMBOLS) && Smallest(freq, except, d, SYMBOLS)
    ensures c == d
  {
  }

  /** The merge of known symbols. */
  lemma {:induction false} MergesTo(trees: seq<Tree>, freq: seq<int>, tree: Tree, c1: int, c2: int)
    requires |trees| == |freq| == SYMBOLS && Leads(trees, freq, tree)
    requires Smallest(freq, -1, c1, SYMBOLS) && Smallest(freq, c1, c2, SYMBOLS)
    ensures LeadsBy(trees, freq, c1, c2, tree)
  {
    hide Smallest, LeadsBy;
    var d1, d2 :| Smallest(freq, -1, d1, SYMBOLS) && Smallest(freq, d1, d2, SYMBOLS) && LeadsBy(trees, freq, d1, d2, tree);
    SmallestUnique(freq, -1, c1, d1);
    SmallestUnique(freq, c1, c2, d2);
  }

  lemma {:induction false} NextStep(trees: seq<Tree>, freq: seq<int>, a: nat)
    requires Staircase(trees, freq, a) && a > 0
    ensures Staircase(trees[a - 1 := Node(trees[a - 1], trees[a])], MergedFreq(freq, a - 1, a), a - 1)
  {
    Steps(a);
    hide Stair;
  }

  /** The counts of a staircase, in order. */
  ghost predicate Ordered(freq: seq<int>, a: nat) {
    && |freq| == SYMBOLS && a <= 31 && freq[a] > 0 && (a > 0 ==> 0 < freq[a - 1] < freq[a])
    && (forall s :: 0 <= s < a - 1 ==> freq[s] >= freq[a])
    && forall s :: a < s < SYMBOLS ==> freq[s] == 0
  }

  lemma {:induction false} StepsOrdered(trees: seq<Tree>, freq: seq<int>, a: nat)
    requires Staircase(trees, freq, a)
    ensures Ordered(freq, a)
  {
    Steps(a);
    hide Stair, Height;
    forall s | 0 <= s < a - 1
      ensures freq[s] >= freq[a]
    {
      assert Stair(s) >= Stair(a - 2);
    }
  }

  lemma {:induction false} StepSmallest(freq: seq<int>, a: nat)
    requires Ordered(freq, a)
    ensures a > 0 ==> Smallest(freq, -1, a - 1, SYMBOLS) && Smallest(freq, a - 1, a, SYMBOLS)
    ensures a == 0 ==> Smallest(freq, -1, 0, SYMBOLS) && Smallest(freq, 0, -1, SYMBOLS)
  {
  }

  lemma {:induction false} Climb(trees: seq<Tree>, freq: seq<int>, a: nat, tree: Tree)
    requires Staircase(trees, freq, a) && Leads(trees, freq, tree)
    ensures Height(tree) == 33
    decreases a
  {
    StepsOrdered(trees, freq, a);
    StepSmallest(freq, a);
    hide Leads, Smallest, Ordered, Height, Stair;
    if a == 0 {
      MergesTo(trees, freq, tree, 0, -1);
    } else {
      MergesTo(trees, freq, tree, a - 1, a);
      NextStep(trees, freq, a);
      hide Staircase;
      Climb(trees[a - 1 := Node(trees[a - 1], trees[a])], MergedFreq(freq, a - 1, a), a - 1, tree);
    }
  }

  /** Symbol `s` occurs Fibonacci(33 - s) times; `pseudo` is the count of the pseudo-symbol. */
  function Occurrences(pseudo: nat): (counts: seq<int>)
    ensures |counts| == SYMBOLS
  {
    seq(SYMBOLS, s requires 0 <= s < SYMBOLS => if s <= 32 then Stair(s) else if s == PSEUDO then pseudo else 0)
  }

  lemma {:induction false} CountsOrdered()
    ensures Occurrences(1)[PSEUDO] == Occurrences(1)[32] == Occurrences(1)[31] == 1 && Occurrences(1)[30] == 2
    ensures forall s :: 0 <= s < 30 ==> Occurrences(1)[s] >= 3
    ensures forall s :: 32 < s < PSEUDO ==> Occurrences(1)[s] == 0
  {
    Steps(31);
    assert Stair(32) == 1 && Stair(31) == 1 && Stair(30) == 2 && Stair(29) == 3;
  }

  lemma {:induction false} FirstSmallest(freq: seq<int>)
    requires freq == Occurrences(1)
    ensures Smallest(freq, -1, PSEUDO, SYMBOLS) && Smallest(freq, PSEUDO, 32, SYMBOLS)
  {
    CountsOrdered();
    hide Occurrences;
  }

  lemma {:induction false} SecondSmallest(freq: seq<int>)
    requires freq == MergedFreq(Occurrences(1), PSEUDO, 32)
    ensures Smallest(freq, -1, 31, SYMBOLS) && Smallest(freq, 31, PSEUDO, SYMBOLS)
  {
    CountsOrdered();
    hide Occurrences;
  }

  lemma {:induction false} Landing(trees: seq<Tree>, freq: seq<int>)
    requires trees == Singles().trees[PSEUDO := Node(Leaf(PSEUDO), Leaf(32))][31 := Node(Leaf(31), Node(Leaf(PSEUDO), Leaf(32)))]
    requires freq == MergedFreq(MergedFreq(Occurrences(1), PSEUDO, 32), 31, PSEUDO)
    ensures Staircase(trees, freq, 31)
  {
    CountsOrdered();
    assert Stair(29) == 3;
    assert forall s :: 0 <= s < 31 ==> Occurrences(1)[s] == Stair(s);
    hide Occurrences, Stair;
  }

  lemma {:induction false} FirstSteps(tree: Tree)
    requires Leads(Singles().trees, Occurrences(1), tree)
    ensures Height(tree) == 33
  {
    var trees, freq := Singles().trees, Occurrences(1);
    FirstSmallest(freq);
    hide Smallest, Leads, Occurrences;
    MergesTo(trees, freq, tree, PSEUDO, 32);
    var trees', freq' := trees[PSEUDO := Node(trees[PSEUDO], trees[32])], MergedFreq(freq, PSEUDO, 32);
    SecondSmallest(freq');
    MergesTo(trees', freq', tree, 31, PSEUDO);
    var trees'', freq'' := trees'[31 := Node(trees'[31], trees'[PSEUDO])], MergedFreq(freq', 31, PSEUDO);
    Landing(trees'', freq'');
    hide LeadsBy;
    Climb(trees'', freq'', 31, tree);
  }

  lemma {:induction false} Total(n: nat)
    requires n <= PSEUDO
    ensures Sum(Occurrences(0)[..n]) == Fib(35) - if n <= 33 then Fib(35 - n) else 1
  {
    hide Fib;
    var counts := Occurrences(0);
    if n == 0 {
      assert counts[..0] == [];
    } else {
      Total(n - 1);
      assert counts[..n][..n - 1] == counts[..n - 1];
      TwoBefore(n);
    }
  }

  lemma {:induction false} TwoBefore(n: nat)
    ensures 0 < n <= 33 ==> Fib(36 - n) == Fib(35 - n) + Fib(34 - n)
    ensures Fib(2) == 1
  {
  }

  /** The bound on the height is sharp. */
  lemma {:induction false} OneMoreIsTooMany()
    ensures HuffmanTables.Histogram(Occurrences(0)) && Sum(Occurrences(0)[..PSEUDO]) + 1 == 9227465
    ensures forall tree :: Leads(Singles().trees, Occurrences(0)[PSEUDO := 1], tree) ==> Height(tree) == 33
  {
    hide Sum, Leads, Height;
    IsHistogram();
    assert Occurrences(0)[PSEUDO := 1] == Occurrences(1);
    hide Occurrences;
    forall tree | Leads(Singles().trees, Occurrences(1), tree)
      ensures Height(tree) == 33
    {
      FirstSteps(tree);
    }
  }

  lemma {:induction false} IsHistogram()
    ensures HuffmanTables.Histogram(Occurrences(0)) && Sum(Occurrences(0)[..PSEUDO]) + 1 == 9227465
  {
    hide Sum, Fib, Stair;
    Total(PSEUDO);
    Fib35();
    Positive(0);
    var counts := Occurrences(0);
    var symbols := HuffmanTables.Occurring(counts);
    assert counts[0] == Stair(0);
    assert 0 in symbols;
    CodeLengths.RangeBounds(33, symbols);
  }

  lemma {:induction false} Positive(s: nat)
    requires s <= 32
    ensures Stair(s) > 0
  {
    FibMonotone(1, 33 - s);
  }

  /** The table builder refuses it. */
  method Overflow() returns (ok: bool)
    ensures !ok
  {
    hide HuffmanTables.Histogram, HuffmanTables.TableFor, Occurrences, Leads, Height, Sum;
    OneMoreIsTooMany();
    var freq := new int[SYMBOLS](s requires 0 <= s < SYMBOLS => Occurrences(0)[s]);
    assert freq[..] == Occurrences(0);
    var bits, huffval;
    ghost var tree;
    ok, bits, huffval, tree := HuffmanTables.GenOptimalTable(freq);
  }
}
