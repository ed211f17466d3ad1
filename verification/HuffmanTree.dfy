/** Code trees: depths, the Kraft sum of a tree, and how much weight height costs. */
module HuffmanTree {
  import opened Shifts

  datatype Tree = Leaf(sym: int) | Node(left: Tree, right: Tree)

  function List(t: Tree): (list: seq<int>)
    ensures list != []
  {
    match t
    case Leaf(sym) => [sym]
    case Node(left, right) => List(left) + List(right)
  }

  predicate Distinct(t: Tree) {
    t.Node? ==>
      && Distinct(t.left) && Distinct(t.right)
      && forall s :: s in List(t.left) ==> s !in List(t.right)
  }

  lemma {:induction false} DistinctList(t: Tree)
    requires Distinct(t)
    ensures forall p, q :: 0 <= p < q < |List(t)| ==> List(t)[p] != List(t)[q]
  {
    if t.Node? {
      DistinctList(t.left);
      DistinctList(t.right);
      NodeDistinct(t);
      hide Distinct;
      var left, right := List(t.left), List(t.right);
      forall p, q | 0 <= p < q < |List(t)|
        ensures List(t)[p] != List(t)[q]
      {
        if p < |left| <= q {
          assert left[p] in left && right[q - |left|] in right;
        }
      }
    }
  }

  function Depth(t: Tree, s: int): nat
    requires s in List(t)
  {
    match t
    case Leaf(_) => 0
    case Node(left, right) => if s in List(left) then 1 + Depth(left, s) else 1 + Depth(right, s)
  }

  function Height(t: Tree): nat {
    match t
    case Leaf(_) => 0
    case Node(left, right) => 1 + if Height(left) < Height(right) then Height(right) else Height(left)
  }

  lemma {:induction false} DepthBound(t: Tree, s: int)
    requires s in List(t)
    ensures Depth(t, s) <= Height(t) && (t.Node? ==> Depth(t, s) > 0)
  {
    if t.Node? {
      if s in List(t.left) {
        DepthBound(t.left, s);
      } else {
        DepthBound(t.right, s);
      }
    }
  }

  // ----- leaves by level

  function CountAt(t: Tree, k: nat): nat {
    match t
    case Leaf(_) => if k == 0 then 1 else 0
    case Node(left, right) => if k == 0 then 0 else CountAt(left, k - 1) + CountAt(right, k - 1)
  }

  ghost function SymsAt(t: Tree, k: int): set<int> {
    set s | s in List(t) && Depth(t, s) == k
  }

  lemma {:induction false} SymsAtCounted(t: Tree, k: nat)
    requires Distinct(t)
    ensures |SymsAt(t, k)| == CountAt(t, k)
  {
    match t
    case Leaf(sym) =>
      assert SymsAt(t, k) == if k == 0 then {sym} else {};
    case Node(left, right) =>
      if k == 0 {
        assert SymsAt(t, 0) == {};
      } else {
        SymsAtCounted(left, k - 1);
        SymsAtCounted(right, k - 1);
        SymsAtSplit(t, k);
      }
  }

  lemma {:induction false} SymsAtSplit(t: Tree, k: int)
    requires Distinct(t) && t.Node?
    ensures SymsAt(t, k) == SymsAt(t.left, k - 1) + SymsAt(t.right, k - 1)
    ensures SymsAt(t.left, k - 1) !! SymsAt(t.right, k - 1)
  {
    hide List, Distinct;
    NodeDistinct(t);
    NodeList(t);
  }

  lemma {:induction false} NodeDistinct(t: Tree)
    requires Distinct(t) && t.Node?
    ensures forall s :: s in List(t.left) ==> s !in List(t.right)
  {
  }

  lemma {:induction false} NodeList(t: Tree)
    requires t.Node?
    ensures forall s :: s in List(t) <==> s in List(t.left) || s in List(t.right)
  {
  }

  // ----- Kraft sums

  /** The Kraft sum scaled by 2^l, as the counts of the lengths 0..l give it. */
  function Kraft(bits: seq<nat>, l: nat): nat
    requires l < |bits|
  {
    if l == 0 then bits[0] else 2 * Kraft(bits, l - 1) + bits[l]
  }

  function TreeKraft(t: Tree, l: nat): nat {
    if l == 0 then CountAt(t, 0) else 2 * TreeKraft(t, l - 1) + CountAt(t, l)
  }

  lemma {:induction false} LeafKraft(sym: int, l: nat)
    ensures TreeKraft(Leaf(sym), l) == Pow2(l)
  {
    if l > 0 {
      LeafKraft(sym, l - 1);
      Pow2Double(l - 1);
    }
  }

  lemma {:induction false} NodeKraft(left: Tree, right: Tree, l: nat)
    ensures TreeKraft(Node(left, right), l + 1) == TreeKraft(left, l) + TreeKraft(right, l)
  {
    if l == 0 {
      assert TreeKraft(Node(left, right), 0) == 0;
    } else {
      NodeKraft(left, right, l - 1);
    }
  }

  /** A tree is a complete prefix code. */
  lemma {:induction false} TreeIsComplete(t: Tree, l: nat)
    requires Height(t) <= l
    ensures TreeKraft(t, l) == Pow2(l)
  {
    match t
    case Leaf(sym) => LeafKraft(sym, l);
    case Node(left, right) =>
      TreeIsComplete(left, l - 1);
      TreeIsComplete(right, l - 1);
      NodeKraft(left, right, l - 1);
      Pow2Double(l - 1);
  }

  lemma {:induction false} KraftOfTree(t: Tree, bits: seq<nat>, l: nat)
    requires l < |bits| && forall k :: 0 <= k <= l ==> bits[k] == CountAt(t, k)
    ensures Kraft(bits, l) == TreeKraft(t, l)
  {
    if l > 0 {
      KraftOfTree(t, bits, l - 1);
    }
  }

  // ----- Fibonacci

  function Fib(n: nat): nat {
    if n < 2 then n else Fib(n - 1) + Fib(n - 2)
  }

  lemma {:induction false} FibMonotone(m: nat, n: nat)
    requires m <= n
    ensures Fib(m) <= Fib(n)
    decreases n
  {
    if m < n {
      FibMonotone(m, n - 1);
      assert n == 1 ==> Fib(0) <= Fib(1);
    }
  }

  lemma {:induction false} Fib35()
    ensures Fib(35) == 9227465
  {
    assert Fib(10) == 55 && Fib(11) == 89;
    assert Fib(20) == 6765 && Fib(21) == 10946;
    assert Fib(30) == 832040 && Fib(31) == 1346269;
  }
}
