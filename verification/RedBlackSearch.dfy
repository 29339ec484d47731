/** Search in a tree whose in-order sequence of keys ascends, and how deep it can get. */
module RedBlackSearch {
  import opened Ordering
  import opened RedBlackShape
  import opened RedBlackMemory

  ghost function Keys<K>(s: seq<Node<K>>): (ks: seq<K>)
    ensures |ks| == |s| && forall i :: 0 <= i < |s| ==> ks[i] == s[i].key
  {
    seq(|s|, i requires 0 <= i < |s| => s[i].key)
  }

  lemma KeysConcat<K>(a: seq<Node<K>>, b: seq<Node<K>>)
    ensures Keys(a + b) == Keys(a) + Keys(b)
  {
  }

  lemma KeysAround<K>(a: seq<Node<K>>, x: Node<K>, b: seq<Node<K>>)
    ensures Keys(a + [x] + b) == Keys(a) + [x.key] + Keys(b)
  {
  }

  ghost predicate Sorted<K>(cmp: (K, K) -> int, t: Shape<K>) {
    Ascending(cmp, Keys(Inorder(t)))
  }

  /** Everything outside the hole lies on the side of `k` on which it hangs. */
  ghost predicate Brackets<K>(cmp: (K, K) -> int, c: Hole<K>, k: K) {
    AllBelow(cmp, Keys(Before(c)), k) && AllAbove(cmp, Keys(After(c)), k)
  }

  /** In a sorted tree, the keys beyond the node in focus, seen from `k`. */
  lemma BeyondFocus<K(!new)>(cmp: (K, K) -> int, c: Hole<K>, t: Shape<K>, k: K)
    requires IsOrder(cmp) && Sorted(cmp, Plug(c, t)) && t.Fork?
    ensures cmp(k, t.node.key) < 0 ==> AllAbove(cmp, [t.node.key] + Keys(RightOf(c, t)), k)
    ensures cmp(k, t.node.key) > 0 ==> AllBelow(cmp, Keys(LeftOf(c, t)) + [t.node.key], k)
    ensures cmp(k, t.node.key) >= 0 ==> AllBelow(cmp, Keys(LeftOf(c, t)), k)
  {
    FocusInorder(c, t);
    KeysAround(LeftOf(c, t), t.node, RightOf(c, t));
    Beyond(cmp, Keys(LeftOf(c, t)), t.node.key, Keys(RightOf(c, t)), k);
  }

  lemma KeysBeyond<K>(c: Hole<K>, t: Shape<K>)
    requires t.Fork?
    ensures Keys(After(InLeft(t.node, t.color, t.right, c))) == [t.node.key] + Keys(RightOf(c, t))
    ensures Keys(Before(InRight(t.left, t.node, t.color, c))) == Keys(LeftOf(c, t)) + [t.node.key]
  {
    assert After(InLeft(t.node, t.color, t.right, c)) == [t.node] + RightOf(c, t);
  }

  /** One comparison of a search discards the node and everything beyond it. */
  lemma Descend<K(!new)>(cmp: (K, K) -> int, c: Hole<K>, t: Shape<K>, k: K)
    requires IsOrder(cmp) && Sorted(cmp, Plug(c, t)) && t.Fork? && Brackets(cmp, c, k)
    ensures cmp(k, t.node.key) < 0 ==> Brackets(cmp, InLeft(t.node, t.color, t.right, c), k)
    ensures cmp(k, t.node.key) > 0 ==> Brackets(cmp, InRight(t.left, t.node, t.color, c), k)
  {
    BeyondFocus(cmp, c, t, k);
    KeysBeyond(c, t);
  }

  /** A search that runs into an empty hole has shown that the key is absent. */
  lemma Absent<K(!new)>(cmp: (K, K) -> int, c: Hole<K>, k: K)
    requires IsOrder(cmp) && Brackets(cmp, c, k)
    ensures Inorder(Plug(c, Leaf)) == Before(c) + After(c)
    ensures Lacks(cmp, Keys(Inorder(Plug(c, Leaf))), k)
  {
    PlugInorder(c, Leaf);
    assert Inorder(Plug(c, Leaf)) == Before(c) + After(c);
    KeysConcat(Before(c), After(c));
    LacksAround(cmp, Keys(Before(c)), Keys(After(c)), k);
  }

  lemma HoleInorder<X>(c: Context<X>, x: X)
    ensures Inorder(Plug(c, Leaf)) == Before(c) + After(c)
    ensures Inorder(Plug(c, Fork(Leaf, x, Red, Leaf))) == Before(c) + [x] + After(c)
  {
    PlugInorder(c, Leaf);
    PlugInorder(c, Fork(Leaf, x, Red, Leaf));
    assert Inorder<X>(Leaf) == [];
    assert Inorder(Fork(Leaf, x, Red, Leaf)) == [x];
  }

  /** A node put into the empty hole that a search ended in keeps the tree sorted. */
  lemma NewSorted<K>(cmp: (K, K) -> int, c: Hole<K>, elm: Node<K>)
    requires Sorted(cmp, Plug(c, Leaf)) && Brackets(cmp, c, elm.key)
    ensures Sorted(cmp, Plug(c, Fork(Leaf, elm, Red, Leaf)))
  {
    HoleInorder(c, elm);
    KeysConcat(Before(c), After(c));
    KeysAround(Before(c), elm, After(c));
    Between(cmp, Keys(Before(c)), elm.key, Keys(After(c)));
  }

  /** A red node put into an empty hole is all that can be wrong with a red-black tree. */
  lemma NewDefect<X>(c: Context<X>, x: X)
    requires RedBlack(Plug(c, Leaf))
    ensures InsertionDefect(c, Fork(Leaf, x, Red, Leaf))
    ensures Nodes(Plug(c, Fork(Leaf, x, Red, Leaf))) == Nodes(Plug(c, Leaf)) + {x}
  {
    PlugRedBlack(c, Leaf);
    PlugNodes(c, Leaf);
    PlugNodes(c, Fork(Leaf, x, Red, Leaf));
  }

  lemma SplitAt<X>(c: Context<X>, t: Tree<X>)
    requires t.Fork?
    ensures var (s, i) := (Inorder(Plug(c, t)), |LeftOf(c, t)|);
      i < |s| && s[i] == t.node && s[..i] == LeftOf(c, t) && s[i + 1..] == RightOf(c, t)
  {
    FocusInorder(c, t);
  }

  lemma RestSorted<K>(cmp: (K, K) -> int, c: Hole<K>, t: Shape<K>)
    requires t.Fork? && Sorted(cmp, Plug(c, t))
    ensures Ascending(cmp, Keys(LeftOf(c, t) + RightOf(c, t)))
  {
    FocusInorder(c, t);
    KeysAround(LeftOf(c, t), t.node, RightOf(c, t));
    KeysConcat(LeftOf(c, t), RightOf(c, t));
    Without(cmp, Keys(LeftOf(c, t)), t.node.key, Keys(RightOf(c, t)));
  }

  lemma InFocus<X>(c: Context<X>, t: Tree<X>)
    requires t.Fork?
    ensures t.node in Inorder(Plug(c, t))
  {
    FocusInorder(c, t);
  }

  /** Finds the place of a node. */
  lemma {:induction false} Locate<X>(c: Context<X>, t: Tree<X>, x: X) returns (d: Context<X>, u: Tree<X>)
    requires x in Nodes(t)
    ensures u.Fork? && u.node == x && Plug(d, u) == Plug(c, t)
    decreases t
  {
    if t.node == x {
      d, u := c, t;
    } else if x in Nodes(t.left) {
      d, u := Locate(InLeft(t.node, t.color, t.right, c), t.left, x);
    } else {
      d, u := Locate(InRight(t.left, t.node, t.color, c), t.right, x);
    }
  }

  /** No node occurs at two positions of a sorted tree. */
  lemma SortedOnce<K(!new)>(cmp: (K, K) -> int, s: seq<Node<K>>)
    requires IsOrder(cmp) && Ascending(cmp, Keys(s))
    ensures forall i, j :: 0 <= i < |s| && 0 <= j < |s| && s[i] == s[j] ==> i == j
  {
    forall i, j | 0 <= i < j < |s| ensures s[i] != s[j] {
      assert cmp(Keys(s)[i], Keys(s)[j]) < 0;
      Antisymmetric(cmp, s[i].key, s[i].key);
    }
  }

  function FirstOf<K>(s: seq<Node<K>>): Node?<K> {
    if s == [] then null else s[0]
  }

  lemma FirstAfter<K>(c: Hole<K>, t: Shape<K>)
    requires t.Fork?
    ensures FirstOf(After(InLeft(t.node, t.color, t.right, c))) == t.node
  {
  }

  function LastOf<K>(s: seq<Node<K>>): Node?<K> {
    if s == [] then null else s[|s| - 1]
  }

  function NodeAt<K>(s: seq<Node<K>>, i: int): Node?<K> {
    if 0 <= i < |s| then s[i] else null
  }

  lemma LastBefore<K>(c: Hole<K>, t: Shape<K>)
    requires t.Fork?
    ensures LastOf(Before(InRight(t.left, t.node, t.color, c))) == t.node
  {
  }

  /** The node in focus stands after `LeftOf` and before `RightOf`, and nowhere else. */
  lemma OnlyHere<K(!new)>(cmp: (K, K) -> int, c: Hole<K>, t: Shape<K>)
    requires IsOrder(cmp) && Sorted(cmp, Plug(c, t)) && t.Fork?
    ensures var s := Inorder(Plug(c, t));
      forall i :: 0 <= i < |s| && s[i] == t.node ==>
        NodeAt(s, i + 1) == FirstOf(RightOf(c, t)) && NodeAt(s, i - 1) == LastOf(LeftOf(c, t))
  {
    FocusInorder(c, t);
    var s := Inorder(Plug(c, t));
    SortedOnce(cmp, s);
    assert s[|LeftOf(c, t)|] == t.node;
  }

  /** `r` is the least of the nodes not below `k`, or null if there is none. */
  ghost predicate IsCeiling<K>(cmp: (K, K) -> int, s: seq<Node<K>>, k: K, r: Node?<K>) {
    if r == null then
      forall n :: n in s ==> cmp(n.key, k) < 0
    else
      r in s && cmp(k, r.key) <= 0 && forall n :: n in s && cmp(k, n.key) <= 0 ==> cmp(r.key, n.key) <= 0
  }

  /** If the sequence splits into keys below `k` and keys not below it, the first of the latter is
      the least element not below `k`. */
  lemma LeastNotBelow<K(!new)>(cmp: (K, K) -> int, a: seq<Node<K>>, b: seq<Node<K>>, k: K, t: Shape<K>)
    requires IsOrder(cmp) && Sorted(cmp, t) && Inorder(t) == a + b
    requires AllBelow(cmp, Keys(a), k) && (b != [] ==> cmp(k, b[0].key) <= 0)
    ensures IsCeiling(cmp, Inorder(t), k, FirstOf(b))
  {
    KeysConcat(a, b);
    Parts(cmp, Keys(a), Keys(b));
    forall n | n in a ensures cmp(n.key, k) < 0 && cmp(k, n.key) > 0 {
      var i :| 0 <= i < |a| && a[i] == n;
      assert cmp(Keys(a)[i], k) < 0;
      Antisymmetric(cmp, n.key, k);
    }
    forall n | n in b ensures cmp(b[0].key, n.key) <= 0 {
      var i :| 0 <= i < |b| && b[i] == n;
      Antisymmetric(cmp, n.key, n.key);
      if i > 0 { assert cmp(Keys(b)[0], Keys(b)[i]) < 0; }
    }
  }

  lemma CeilingHere<K(!new)>(cmp: (K, K) -> int, c: Hole<K>, t: Shape<K>, k: K)
    requires IsOrder(cmp) && Sorted(cmp, Plug(c, t)) && t.Fork? && cmp(k, t.node.key) == 0
    ensures IsCeiling(cmp, Inorder(Plug(c, t)), k, t.node)
  {
    FocusInorder(c, t);
    BeyondFocus(cmp, c, t, k);
    assert Inorder(Plug(c, t)) == LeftOf(c, t) + ([t.node] + RightOf(c, t));
    LeastNotBelow(cmp, LeftOf(c, t), [t.node] + RightOf(c, t), k, Plug(c, t));
  }

  lemma CeilingAfter<K(!new)>(cmp: (K, K) -> int, c: Hole<K>, k: K)
    requires IsOrder(cmp) && Sorted(cmp, Plug(c, Leaf)) && Brackets(cmp, c, k)
    ensures IsCeiling(cmp, Inorder(Plug(c, Leaf)), k, FirstOf(After(c)))
  {
    PlugInorder(c, Leaf);
    assert Inorder(Plug(c, Leaf)) == Before(c) + After(c);
    if After(c) != [] { assert cmp(k, Keys(After(c))[0]) < 0; }
    LeastNotBelow(cmp, Before(c), After(c), k, Plug(c, Leaf));
  }

  // ------------------------------------------------------------------ height

  function Size<X>(t: Tree<X>): nat {
    if t.Leaf? then 0 else Size(t.left) + 1 + Size(t.right)
  }

  function Height<X>(t: Tree<X>): nat {
    if t.Leaf? then 0 else 1 + (if Height(t.left) > Height(t.right) then Height(t.left) else Height(t.right))
  }

  function Pow2(n: nat): nat {
    if n == 0 then 1 else 2 * Pow2(n - 1)
  }

  lemma {:induction false} Pow2Monotone(m: nat, n: nat)
    requires m <= n
    ensures Pow2(m) <= Pow2(n)
    decreases n
  {
    if m == n {
    } else {
      Pow2Monotone(m, n - 1);
    }
  }

  lemma {:induction false} SizeInorder<X>(t: Tree<X>)
    ensures Size(t) == |Inorder(t)|
  {
    if t.Leaf? {
    } else {
      SizeInorder(t.left);
      SizeInorder(t.right);
    }
  }

  lemma {:induction false} BlackHeightBounds<X>(t: Tree<X>)
    requires Balanced(t) && NoRedRed(t)
    ensures Height(t) <= 2 * BlackHeight(t) + (if IsRed(t) then 1 else 0)
    ensures Pow2(BlackHeight(t)) <= Size(t) + 1
  {
    if t.Leaf? {
    } else {
      BlackHeightBounds(t.left);
      BlackHeightBounds(t.right);
    }
  }

  /** The header's bound of 2 lg(n + 1) on the height, without the logarithm: half the number of
      levels, rounded up, is at most the exponent of a power of two not above n + 1. */
  lemma HeightBound<X>(t: Tree<X>, h: nat)
    requires RedBlack(t) && h <= Height(t)
    ensures Pow2((h + 1) / 2) <= |Inorder(t)| + 1
  {
    BlackHeightBounds(t);
    SizeInorder(t);
    Pow2Monotone((h + 1) / 2, BlackHeight(t));
  }
}
