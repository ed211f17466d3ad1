/** The pseudo-symbol, which occurs once and has the highest number, always ends at the
    deepest level of the tree. So dropping one of the longest codes is dropping its own. */
module PseudoSymbol {
  import opened HuffmanTree
  import opened Frequencies
  import opened OptimalTable

  /** The tree at `r` has the pseudo-symbol on its deepest level. */
  predicate Holds(trees: seq<Tree>, freq: seq<int>, r: nat) {
    && |trees| == |freq| == SYMBOLS && Nonnegative(freq) && Alive(freq, r)
    && PSEUDO in List(trees[r]) && Depth(trees[r], PSEUDO) == Height(trees[r])
  }

  /** Another tree is no higher, and lower if it would be merged first. The tree with the
      pseudo-symbol wins ties only as long as it stands at the highest place. */
  predicate Lower(trees: seq<Tree>, freq: seq<int>, r: nat, t: int)
    requires |trees| == |freq| == SYMBOLS && r < SYMBOLS && 0 <= t < SYMBOLS
  {
    && PSEUDO !in List(trees[t]) && Height(trees[t]) <= Height(trees[r])
    && (freq[t] < freq[r] ==> Height(trees[t]) < Height(trees[r]))
    && (freq[t] == freq[r] && r != PSEUDO ==> Height(trees[t]) < Height(trees[r]))
  }

  /** Two other trees, once merged, are not merged again before the tree with the
      pseudo-symbol is, or are low enough. */
  predicate Heavier(trees: seq<Tree>, freq: seq<int>, r: nat, t: int, u: int)
    requires |trees| == |freq| == SYMBOLS && r < SYMBOLS && 0 <= t < SYMBOLS && 0 <= u < SYMBOLS
  {
    && freq[t] + freq[u] >= freq[r]
    && (freq[t] + freq[u] == freq[r] && r != PSEUDO ==>
          Height(trees[t]) + 1 < Height(trees[r]) && Height(trees[u]) + 1 < Height(trees[r]))
  }

  ghost predicate Deep(trees: seq<Tree>, freq: seq<int>, r: nat) {
    && Holds(trees, freq, r)
    && (forall t :: Alive(freq, t) && t != r ==> Lower(trees, freq, r, t))
    && forall t, u :: Alive(freq, t) && Alive(freq, u) && t != r && u != r && t != u ==> Heavier(trees, freq, r, t, u)
  }

  lemma {:induction false} NodeOf(left: Tree, right: Tree)
    ensures forall s :: s in List(Node(left, right)) <==> s in List(left) || s in List(right)
    ensures forall s :: s in List(left) ==> Depth(Node(left, right), s) == Depth(left, s) + 1
    ensures forall s :: s in List(right) && s !in List(left) ==> Depth(Node(left, right), s) == Depth(right, s) + 1
    ensures Height(Node(left, right)) == 1 + if Height(left) < Height(right) then Height(right) else Height(left)
  {
  }

  /** The tree with the pseudo-symbol is merged. */
  lemma {:induction false} MergedStaysDeep(trees: seq<Tree>, freq: seq<int>, r: nat, c1: nat, c2: nat)
    requires Deep(trees, freq, r) && Smallest(freq, -1, c1, SYMBOLS) && Smallest(freq, c1, c2, SYMBOLS) && (r == c1 || r == c2)
    requires Mergeable(freq, c1, c2)
    ensures Deep(trees[c1 := Node(trees[c1], trees[c2])], MergedFreq(freq, c1, c2), c1)
  {
    var q := if r == c1 then c2 else c1;
    assert Lower(trees, freq, r, q);
    NodeOf(trees[c1], trees[c2]);
    MergeAlive(freq, c1, c2);
    hide List, Depth, Height, Nonnegative;
    var after, f := trees[c1 := Node(trees[c1], trees[c2])], MergedFreq(freq, c1, c2);
    forall t | Alive(f, t) && t != c1
      ensures Lower(after, f, c1, t)
    {
      assert Lower(trees, freq, r, t);
    }
    forall t, u | Alive(f, t) && Alive(f, u) && t != c1 && u != c1 && t != u
      ensures Heavier(after, f, c1, t, u)
    {
      assert Lower(trees, freq, r, t) && Lower(trees, freq, r, u);
    }
  }

  /** Two others are merged. */
  lemma {:induction false} OthersStayLower(trees: seq<Tree>, freq: seq<int>, r: nat, c1: nat, c2: nat)
    requires Deep(trees, freq, r) && Smallest(freq, -1, c1, SYMBOLS) && Smallest(freq, c1, c2, SYMBOLS) && r != c1 && r != c2
    requires Mergeable(freq, c1, c2)
    ensures Deep(trees[c1 := Node(trees[c1], trees[c2])], MergedFreq(freq, c1, c2), r)
  {
    assert Lower(trees, freq, r, c1) && Lower(trees, freq, r, c2) && Heavier(trees, freq, r, c1, c2);
    NodeOf(trees[c1], trees[c2]);
    MergeAlive(freq, c1, c2);
    hide List, Depth, Height, Nonnegative;
    var after, f := trees[c1 := Node(trees[c1], trees[c2])], MergedFreq(freq, c1, c2);
    forall t | Alive(f, t) && t != r
      ensures Lower(after, f, r, t)
    {
      assert t != c1 ==> Lower(trees, freq, r, t);
    }
    forall t, u | Alive(f, t) && Alive(f, u) && t != r && u != r && t != u
      ensures Heavier(after, f, r, t, u)
    {
      assert t != c1 && u != c1 ==> Heavier(trees, freq, r, t, u);
    }
  }

  lemma {:induction false} EndsDeep(trees: seq<Tree>, freq: seq<int>, r: nat, tree: Tree)
    requires |trees| == |freq| == SYMBOLS && Deep(trees, freq, r) && Leads(trees, freq, tree)
    ensures PSEUDO in List(tree) && Depth(tree, PSEUDO) == Height(tree)
    decreases AliveSet(freq)
  {
    var c1, c2 :| Smallest(freq, -1, c1, SYMBOLS) && Smallest(freq, c1, c2, SYMBOLS) && LeadsBy(trees, freq, c1, c2, tree);
    hide List, Depth, Height, Nonnegative, Lower, Heavier, Leads;
    if c2 >= 0 {
      MergeAlive(freq, c1, c2);
      if r == c1 || r == c2 {
        MergedStaysDeep(trees, freq, r, c1, c2);
        EndsDeep(trees[c1 := Node(trees[c1], trees[c2])], MergedFreq(freq, c1, c2), c1, tree);
      } else {
        OthersStayLower(trees, freq, r, c1, c2);
        EndsDeep(trees[c1 := Node(trees[c1], trees[c2])], MergedFreq(freq, c1, c2), r, tree);
      }
    }
  }

  /** Whatever the counts, the pseudo-symbol has one of the longest codes. */
  lemma {:induction false} PseudoIsDeepest(counts: seq<int>, tree: Tree)
    requires |counts| == SYMBOLS && Nonnegative(counts) && counts[PSEUDO] == 1 && Leads(Singles().trees, counts, tree)
    ensures PSEUDO in List(tree) && Depth(tree, PSEUDO) == Height(tree)
  {
    var trees := Singles().trees;
    assert forall t :: 0 <= t < SYMBOLS ==> trees[t] == Leaf(t) && List(trees[t]) == [t] && Height(trees[t]) == 0;
    hide Leads;
    EndsDeep(trees, counts, PSEUDO, tree);
  }
}
