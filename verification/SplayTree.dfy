/** The splay tree of the header: `sph_root` and the operations generated by SPLAY_GENERATE. */
module SplayTree {
  import opened Ordering
  import opened Sequences
  import opened SplayShape
  import opened SplayMemory

  // ------------------------------------------------------------------ keys

  ghost function Keys<K>(s: seq<Node<K>>): (ks: seq<K>)
    ensures |ks| == |s| && forall i :: 0 <= i < |s| ==> ks[i] == s[i].key
  {
    seq(|s|, i requires 0 <= i < |s| => s[i].key)
  }

  lemma KeysConcat<K>(a: seq<Node<K>>, b: seq<Node<K>>)
    ensures Keys(a + b) == Keys(a) + Keys(b)
  {
  }

  /** Everything already hung off the side trees lies on the proper side of `k`. */
  ghost predicate Brackets<K>(cmp: (K, K) -> int, lc: Side<K>, rc: Side<K>, k: K) {
    AllBelow(cmp, Keys(LeftSeq(lc)), k) && AllAbove(cmp, Keys(RightSeq(rc)), k)
  }

  lemma KeysOfWhole<K>(lc: Side<K>, t: Shape<K>, rc: Side<K>)
    requires t.Join?
    ensures Keys(Whole(lc, t, rc)) ==
            Keys(LeftSeq(lc) + Inorder(t.left)) + [t.node.key] + Keys(Inorder(t.right) + RightSeq(rc))
    ensures Keys(RightSeq(Link(t.node, t.right, rc))) == [t.node.key] + Keys(Inorder(t.right) + RightSeq(rc))
    ensures Keys(LeftSeq(Link(t.node, t.left, lc))) == Keys(LeftSeq(lc) + Inorder(t.left)) + [t.node.key]
  {
    var (a, b, c, d) := (LeftSeq(lc), Inorder(t.left), Inorder(t.right), RightSeq(rc));
    assert a + (b + [t.node] + c) + d == (a + b) + [t.node] + (c + d);
    assert ([t.node] + c) + d == [t.node] + (c + d);
    assert a + (b + [t.node]) == (a + b) + [t.node];
    KeysConcat(a + b, [t.node]);
    KeysConcat((a + b) + [t.node], c + d);
    KeysConcat([t.node], c + d);
    assert Keys([t.node]) == [t.node.key];
  }

  /** What one comparison with the root of the middle tree says about everything around it. */
  lemma CompareRoot<K(!new)>(cmp: (K, K) -> int, lc: Side<K>, t: Shape<K>, rc: Side<K>, k: K)
    requires IsOrder(cmp) && t.Join? && Ascending(cmp, Keys(Whole(lc, t, rc))) && Brackets(cmp, lc, rc, k)
    ensures cmp(k, t.node.key) < 0 ==> Brackets(cmp, lc, Link(t.node, t.right, rc), k)
    ensures cmp(k, t.node.key) > 0 ==> Brackets(cmp, Link(t.node, t.left, lc), rc, k)
    ensures cmp(k, t.node.key) >= 0 ==> AllBelow(cmp, Keys(LeftSeq(lc) + Inorder(t.left)), k)
    ensures cmp(k, t.node.key) <= 0 ==> AllAbove(cmp, Keys(Inorder(t.right) + RightSeq(rc)), k)
  {
    KeysOfWhole(lc, t, rc);
    Beyond(cmp, Keys(LeftSeq(lc) + Inorder(t.left)), t.node.key, Keys(Inorder(t.right) + RightSeq(rc)), k);
  }

  /** The tree is split at `k`: only its root may compare equal to `k`. */
  ghost predicate SplitAt<K>(cmp: (K, K) -> int, t: Shape<K>, k: K) {
    t.Join? && AllBelow(cmp, Keys(Inorder(t.left)), k) && AllAbove(cmp, Keys(Inorder(t.right)), k)
  }

  /** The loop may stop when the searched side of the middle tree is empty, or the key is found. */
  lemma StopSplits<K(!new)>(cmp: (K, K) -> int, lc: Side<K>, t: Shape<K>, rc: Side<K>, k: K)
    requires IsOrder(cmp) && t.Join? && Ascending(cmp, Keys(Whole(lc, t, rc))) && Brackets(cmp, lc, rc, k)
    requires cmp(k, t.node.key) < 0 ==> t.left.Empty?
    requires cmp(k, t.node.key) > 0 ==> t.right.Empty?
    ensures SplitAt(cmp, Assembled(lc, t, rc), k)
  {
    CompareRoot(cmp, lc, t, rc, k);
    AssembledInorder(lc, t, rc);
    assert t.left.Empty? ==> LeftSeq(lc) + Inorder(t.left) == LeftSeq(lc);
    assert t.right.Empty? ==> Inorder(t.right) + RightSeq(rc) == RightSeq(rc);
  }

  function NodeAt<K>(s: seq<Node<K>>, i: int): Node?<K> {
    if 0 <= i < |s| then s[i] else null
  }

  lemma OuterRoot<K>(t: Shape<K>)
    requires t.Join?
    ensures t.left.Empty? ==> NodeAt(Inorder(t), 0) == t.node
    ensures t.right.Empty? ==> NodeAt(Inorder(t), |Inorder(t)| - 1) == t.node
  {
  }

  /** A tree split at `k` holds `k` at its root or nowhere. */
  lemma RootDecides<K(!new)>(cmp: (K, K) -> int, t: Shape<K>, k: K)
    requires IsOrder(cmp) && SplitAt(cmp, t, k)
    ensures Keys(Inorder(t)) == Keys(Inorder(t.left)) + [t.node.key] + Keys(Inorder(t.right))
    ensures cmp(k, t.node.key) != 0 ==> Lacks(cmp, Keys(Inorder(t)), k)
    ensures t.node in Inorder(t)
  {
    KeysConcat(Inorder(t.left), [t.node]);
    KeysConcat(Inorder(t.left) + [t.node], Inorder(t.right));
    assert Keys([t.node]) == [t.node.key];
    LacksAround(cmp, Keys(Inorder(t.left)), Keys(Inorder(t.right)), k);
  }

  /** Assembling the three trees of a splay changes neither order nor nodes. */
  lemma SameWhole<K>(lc: Side<K>, t: Shape<K>, rc: Side<K>, was: Shape<K>)
    requires t.Join? && Whole(lc, t, rc) == Inorder(was)
    ensures Inorder(Assembled(lc, t, rc)) == Inorder(was) && Nodes(Assembled(lc, t, rc)) == Nodes(was)
  {
    AssembledInorder(lc, t, rc);
    InorderNodes(was);
    InorderNodes(Assembled(lc, t, rc));
  }

  /** The tree that SPLAY_INSERT builds around a new node after splaying at its key. */
  function Inserted<K>(t: Shape<K>, elm: Node<K>, below: bool): Shape<K>
    requires t.Join?
  {
    if below then Join(t.left, elm, Join(Empty, t.node, t.right))
    else Join(Join(t.left, t.node, Empty), elm, t.right)
  }

  lemma InsertedNodes<K>(t: Shape<K>, elm: Node<K>, below: bool)
    requires t.Join? && Distinct(t) && elm !in Nodes(t)
    ensures Distinct(Inserted(t, elm, below)) && Nodes(Inserted(t, elm, below)) == Nodes(t) + {elm}
  {
    if below {
      var inner := Join(Empty, t.node, t.right);
      assert Distinct(inner) && Nodes(inner) == {t.node} + Nodes(t.right);
    } else {
      var inner := Join(t.left, t.node, Empty);
      assert Distinct(inner) && Nodes(inner) == {t.node} + Nodes(t.left);
    }
  }

  lemma InsertedInorder<K>(t: Shape<K>, elm: Node<K>, below: bool)
    requires t.Join?
    ensures var (e, i) := (Inorder(t), |Inorder(t.left)| + (if below then 0 else 1));
      && i <= |e| && Inorder(Inserted(t, elm, below)) == e[..i] + [elm] + e[i..]
      && e[..i] == Inorder(t.left) + (if below then [] else [t.node])
      && e[i..] == (if below then [t.node] else []) + Inorder(t.right)
  {
    var (l, x, r) := (Inorder(t.left), [t.node], Inorder(t.right));
    if below {
      assert Inorder(Join(Empty, t.node, t.right)) == x + r;
      Regroup(l, x, r);
    } else {
      assert Inorder(Join(t.left, t.node, Empty)) == l + x;
    }
  }

  lemma BelowNew<K>(cmp: (K, K) -> int, t: Shape<K>, k: K, below: bool)
    requires SplitAt(cmp, t, k) && (!below ==> cmp(t.node.key, k) < 0)
    ensures AllBelow(cmp, Keys(Inorder(t.left) + (if below then [] else [t.node])), k)
  {
    var l := Inorder(t.left);
    forall i | 0 <= i < |l| ensures cmp(l[i].key, k) < 0 { assert cmp(Keys(l)[i], k) < 0; }
  }

  lemma AboveNew<K>(cmp: (K, K) -> int, t: Shape<K>, k: K, below: bool)
    requires SplitAt(cmp, t, k) && (below ==> cmp(k, t.node.key) < 0)
    ensures AllAbove(cmp, Keys((if below then [t.node] else []) + Inorder(t.right)), k)
  {
    var r := Inorder(t.right);
    forall i | 0 <= i < |r| ensures cmp(k, r[i].key) < 0 { assert cmp(k, Keys(r)[i]) < 0; }
  }

  lemma InsertedSorted<K>(cmp: (K, K) -> int, t: Shape<K>, elm: Node<K>, below: bool)
    requires SplitAt(cmp, t, elm.key) && Ascending(cmp, Keys(Inorder(t)))
    requires if below then cmp(elm.key, t.node.key) < 0 else cmp(t.node.key, elm.key) < 0
    ensures Ascending(cmp, Keys(Inorder(Inserted(t, elm, below))))
  {
    InsertedInorder(t, elm, below);
    BelowNew(cmp, t, elm.key, below);
    AboveNew(cmp, t, elm.key, below);
    var i := |Inorder(t.left)| + (if below then 0 else 1);
    var (a, b) := (Inorder(t)[..i], Inorder(t)[i..]);
    assert a + b == Inorder(t);
    KeysConcat(a, b);
    KeysConcat(a, [elm]);
    KeysConcat(a + [elm], b);
    assert Keys([elm]) == [elm.key];
    Between(cmp, Keys(a), elm.key, Keys(b));
  }

  /** The pointer effect of SPLAY_INSERT on a splayed tree. */
  lemma InsertedHangs<K>(m: Cells<K>, m': Cells<K>, t: Shape<K>, elm: Node<K>, below: bool)
    requires t.Join? && Hangs(m, t, t.node) && Distinct(t) && elm !in Nodes(t)
    requires elm in m' && t.node in m' && forall n :: n in m && n != t.node && n != elm ==> n in m' && m'[n] == m[n]
    requires if below then m'[elm] == Cell(m[t.node].left, t.node) && m'[t.node] == m[t.node].(left := null)
                      else m'[elm] == Cell(t.node, m[t.node].right) && m'[t.node] == m[t.node].(right := null)
    ensures Hangs(m', Inserted(t, elm, below), elm)
  {
    HangsFrame(m, m', t.left, m[t.node].left);
    HangsFrame(m, m', t.right, m[t.node].right);
    assert Hangs<K>(m', Empty, null);
    if below {
      assert Hangs(m', Join(Empty, t.node, t.right), t.node);
    } else {
      assert Hangs(m', Join(t.left, t.node, Empty), t.node);
    }
  }

  /** Without its root, a sorted tree leaves two sorted sides that still follow each other. */
  lemma SidesSorted<K>(cmp: (K, K) -> int, t: Shape<K>)
    requires t.Join? && Ascending(cmp, Keys(Inorder(t)))
    ensures Ascending(cmp, Keys(Inorder(t.left))) && Ascending(cmp, Keys(Inorder(t.right)))
    ensures Ascending(cmp, Keys(Inorder(t.left) + Inorder(t.right)))
  {
    var (l, r) := (Inorder(t.left), Inorder(t.right));
    KeysConcat(l, [t.node]);
    KeysConcat(l + [t.node], r);
    KeysConcat(l, r);
    assert Keys([t.node]) == [t.node.key];
    Without(cmp, Keys(l), t.node.key, Keys(r));
    Parts(cmp, Keys(l), Keys(r));
  }

  lemma NoneAbove<K(!new)>(cmp: (K, K) -> int, t: Shape<K>, k: K)
    requires IsOrder(cmp) && SplitAt(cmp, t, k) && AllBelow(cmp, Keys(Inorder(t)), k)
    ensures t.right.Empty?
  {
    if t.right.Join? {
      RootDecides(cmp, t, k);
      var (r, i) := (Keys(Inorder(t.right)), |Inorder(t.left)| + 1);
      assert cmp(k, r[0]) < 0 && Keys(Inorder(t))[i] == r[0];
      Antisymmetric(cmp, k, r[0]);
    }
  }

  /** A node of a tree split at its own key is the root. */
  lemma OnlyAtRoot<K(!new)>(cmp: (K, K) -> int, t: Shape<K>, x: Node<K>)
    requires IsOrder(cmp) && SplitAt(cmp, t, x.key) && x in Inorder(t)
    ensures t.node == x
    ensures forall i :: 0 <= i < |Inorder(t)| && Inorder(t)[i] == x ==>
              NodeAt(Inorder(t), i + 1) == NodeAt(Inorder(t.right), 0)
  {
    var (l, r) := (Inorder(t.left), Inorder(t.right));
    Antisymmetric(cmp, x.key, x.key);
    forall i | 0 <= i < |l| ensures l[i] != x { assert cmp(Keys(l)[i], x.key) < 0; }
    forall i | 0 <= i < |r| ensures r[i] != x { assert cmp(x.key, Keys(r)[i]) < 0; }
    assert Inorder(t) == l + [t.node] + r;
  }

  class SplayTree<K(!new)> {
    const cmp: (K, K) -> int
    var root: Node?<K>
    ghost var pool: set<Node<K>>
    ghost var shape: Shape<K>

    ghost function CellsOf(s: set<Node<K>>): Cells<K>
      reads s
    {
      map n | n in s :: Cell(n.left, n.right)
    }

    ghost predicate Valid()
      reads this, pool
    {
      && IsOrder(cmp) && Hangs(CellsOf(pool), shape, root) && Distinct(shape)
      && pool == Nodes(shape) && Ascending(cmp, Keys(Elements()))
    }

    ghost function Elements(): seq<Node<K>>
      reads `shape
    {
      Inorder(shape)
    }

    /** SPLAY_INIT */
    constructor (cmp: (K, K) -> int)
      requires IsOrder(cmp)
      ensures Valid() && this.cmp == cmp && Elements() == []
    {
      this.cmp := cmp;
      root, pool, shape := null, {}, Empty;
    }

    // ---------------------------------------------------------------- the macros of the loop

    /** Reads off the root of the middle tree. */
    lemma Look(s: set<Node<K>>, lc: Side<K>, t: Shape<K>, rc: Side<K>, dummy: Node<K>)
      requires Splits(CellsOf(s), root, lc, t, rc, dummy) && t.Join?
      ensures root == t.node && root in s && root.left == RootOf(t.left) && root.right == RootOf(t.right)
      ensures root.left != null ==> root.left in s && root.left != root
      ensures root.right != null ==> root.right in s && root.right != root
    {
      Rooted(CellsOf(s), t, root);
      Rooted(CellsOf(s), t.left, root.left);
      Rooted(CellsOf(s), t.right, root.right);
    }

    /** SPLAY_ROTATE_RIGHT */
    method RotateRight(tmp: Node<K>, ghost s: set<Node<K>>, ghost lc: Side<K>, ghost t: Shape<K>, ghost rc: Side<K>,
        ghost dummy: Node<K>)
      requires Splits(CellsOf(s), root, lc, t, rc, dummy) && t.Join? && t.left.Join? && t.left.node == tmp
      modifies `root, s
      ensures Splits(CellsOf(s), root, lc, RotatedRight(t), rc, dummy)
    {
      ghost var m := CellsOf(s);
      Look(s, lc, t, rc, dummy);
      root.left := tmp.right;
      tmp.right := root;
      root := tmp;
      RotateRightSplits(m, CellsOf(s), lc, t, rc, dummy);
    }

    /** SPLAY_ROTATE_LEFT */
    method RotateLeft(tmp: Node<K>, ghost s: set<Node<K>>, ghost lc: Side<K>, ghost t: Shape<K>, ghost rc: Side<K>,
        ghost dummy: Node<K>)
      requires Splits(CellsOf(s), root, lc, t, rc, dummy) && t.Join? && t.right.Join? && t.right.node == tmp
      modifies `root, s
      ensures Splits(CellsOf(s), root, lc, RotatedLeft(t), rc, dummy)
    {
      ghost var m := CellsOf(s);
      Look(s, lc, t, rc, dummy);
      root.right := tmp.left;
      tmp.left := root;
      root := tmp;
      RotateLeftSplits(m, CellsOf(s), lc, t, rc, dummy);
    }

    /** SPLAY_LINKLEFT */
    method LinkLeft(right: Node<K>, ghost s: set<Node<K>>, ghost lc: Side<K>, ghost t: Shape<K>, ghost rc: Side<K>,
        ghost dummy: Node<K>) returns (tmp: Node<K>)
      requires Splits(CellsOf(s), root, lc, t, rc, dummy) && t.Join? && End(rc, dummy) == right && right in s
      modifies `root, s
      ensures tmp == t.node && tmp in s
      ensures Splits(CellsOf(s), root, lc, t.left, Link(t.node, t.right, rc), dummy)
    {
      ghost var m := CellsOf(s);
      Look(s, lc, t, rc, dummy);
      right.left := root;
      tmp := root;
      root := root.left;
      LinkLeftSplits(m, CellsOf(s), lc, t, rc, dummy);
    }

    /** SPLAY_LINKRIGHT */
    method LinkRight(left: Node<K>, ghost s: set<Node<K>>, ghost lc: Side<K>, ghost t: Shape<K>, ghost rc: Side<K>,
        ghost dummy: Node<K>) returns (tmp: Node<K>)
      requires Splits(CellsOf(s), root, lc, t, rc, dummy) && t.Join? && End(lc, dummy) == left && left in s
      modifies `root, s
      ensures tmp == t.node && tmp in s
      ensures Splits(CellsOf(s), root, Link(t.node, t.left, lc), t.right, rc, dummy)
    {
      ghost var m := CellsOf(s);
      Look(s, lc, t, rc, dummy);
      left.right := root;
      tmp := root;
      root := root.right;
      LinkRightSplits(m, CellsOf(s), lc, t, rc, dummy);
    }

    /** SPLAY_ASSEMBLE */
    method Assemble(node: Node<K>, left: Node<K>, right: Node<K>,
        ghost s: set<Node<K>>, ghost lc: Side<K>, ghost t: Shape<K>, ghost rc: Side<K>)
      requires Splits(CellsOf(s), root, lc, t, rc, node) && t.Join?
      requires End(lc, node) == left && End(rc, node) == right && left in s && right in s
      modifies s
      ensures root == t.node && Hangs(CellsOf(s), Assembled(lc, t, rc), root) && Distinct(Assembled(lc, t, rc))
      ensures Nodes(Assembled(lc, t, rc)) == SpineNodes(lc) + Nodes(t) + SpineNodes(rc)
    {
      ghost var m := CellsOf(s);
      Look(s, lc, t, rc, node);
      left.right := root.left;
      right.left := root.right;
      ghost var m' := CellsOf(s);
      root.left := node.right;
      root.right := node.left;
      AssembleHangs(m, m', CellsOf(s), lc, t, rc, node);
    }

    // ---------------------------------------------------------------- splaying

    /** What the splay loop keeps while it searches for `k`. */
    ghost predicate Splaying(s: set<Node<K>>, lc: Side<K>, t: Shape<K>, rc: Side<K>, dummy: Node<K>, k: K)
      reads `root, s
    {
      && Splits(CellsOf(s), root, lc, t, rc, dummy) && t.Join?
      && Ascending(cmp, Keys(Whole(lc, t, rc))) && Brackets(cmp, lc, rc, k)
    }

    /** The root goes to the right tree, and its left subtree is searched next. */
    method StepLeft(elm: Node<K>, right: Node<K>, ghost s: set<Node<K>>, ghost lc: Side<K>, ghost t: Shape<K>,
        ghost rc: Side<K>, ghost dummy: Node<K>) returns (end: Node<K>, ghost u: Shape<K>, ghost sp: Side<K>)
      requires IsOrder(cmp) && Splaying(s, lc, t, rc, dummy, elm.key) && cmp(elm.key, t.node.key) < 0
      requires t.left.Join? && End(rc, dummy) == right && right in s
      modifies `root, s
      ensures Splaying(s, lc, u, sp, dummy, elm.key) && Whole(lc, u, sp) == Whole(lc, t, rc)
      ensures End(sp, dummy) == end && end in s && Size(u) < Size(t)
    {
      CompareRoot(cmp, lc, t, rc, elm.key);
      LinkedSame(lc, t, rc);
      end := LinkLeft(right, s, lc, t, rc, dummy);
      u, sp := t.left, Link(t.node, t.right, rc);
    }

    /** The root goes to the left tree, and its right subtree is searched next. */
    method StepRight(elm: Node<K>, left: Node<K>, ghost s: set<Node<K>>, ghost lc: Side<K>, ghost t: Shape<K>,
        ghost rc: Side<K>, ghost dummy: Node<K>) returns (end: Node<K>, ghost u: Shape<K>, ghost sp: Side<K>)
      requires IsOrder(cmp) && Splaying(s, lc, t, rc, dummy, elm.key) && cmp(elm.key, t.node.key) > 0
      requires t.right.Join? && End(lc, dummy) == left && left in s
      modifies `root, s
      ensures Splaying(s, sp, u, rc, dummy, elm.key) && Whole(sp, u, rc) == Whole(lc, t, rc)
      ensures End(sp, dummy) == end && end in s && Size(u) < Size(t)
    {
      CompareRoot(cmp, lc, t, rc, elm.key);
      LinkedSame(lc, t, rc);
      end := LinkRight(left, s, lc, t, rc, dummy);
      u, sp := t.right, Link(t.node, t.left, lc);
    }

    /** The loop body of SPLAY when the key lies to the left of the root. */
    method GoLeft(elm: Node<K>, right: Node<K>, ghost s: set<Node<K>>, ghost lc: Side<K>, ghost t: Shape<K>, ghost rc: Side<K>,
        ghost dummy: Node<K>) returns (end: Node<K>, stop: bool, ghost u: Shape<K>, ghost sp: Side<K>)
      requires IsOrder(cmp) && Splaying(s, lc, t, rc, dummy, elm.key) && cmp(elm.key, t.node.key) < 0
      requires End(rc, dummy) == right && right in s
      modifies `root, s
      ensures Splaying(s, lc, u, sp, dummy, elm.key) && Whole(lc, u, sp) == Whole(lc, t, rc)
      ensures End(sp, dummy) == end && end in s
      ensures if stop then u.left.Empty? && cmp(elm.key, u.node.key) < 0 else Size(u) < Size(t)
    {
      u, sp, end, stop := t, rc, right, true;
      Look(s, lc, t, rc, dummy);
      var tmp := root.left;
      if tmp == null {
        return;
      }
      if cmp(elm.key, tmp.key) < 0 {
        RotatedRightSame(t);
        RotateRight(tmp, s, lc, t, rc, dummy);
        u := RotatedRight(t);
        Look(s, lc, u, rc, dummy);
        if root.left == null {
          return;
        }
      }
      stop := false;
      end, u, sp := StepLeft(elm, right, s, lc, u, rc, dummy);
    }

    /** The loop body of SPLAY when the key lies to the right of the root. */
    method GoRight(elm: Node<K>, left: Node<K>, ghost s: set<Node<K>>, ghost lc: Side<K>, ghost t: Shape<K>, ghost rc: Side<K>,
        ghost dummy: Node<K>) returns (end: Node<K>, stop: bool, ghost u: Shape<K>, ghost sp: Side<K>)
      requires IsOrder(cmp) && Splaying(s, lc, t, rc, dummy, elm.key) && cmp(elm.key, t.node.key) > 0
      requires End(lc, dummy) == left && left in s
      modifies `root, s
      ensures Splaying(s, sp, u, rc, dummy, elm.key) && Whole(sp, u, rc) == Whole(lc, t, rc)
      ensures End(sp, dummy) == end && end in s
      ensures if stop then u.right.Empty? && cmp(elm.key, u.node.key) > 0 else Size(u) < Size(t)
    {
      u, sp, end, stop := t, lc, left, true;
      Look(s, lc, t, rc, dummy);
      var tmp := root.right;
      if tmp == null {
        return;
      }
      if cmp(elm.key, tmp.key) > 0 {
        RotatedLeftSame(t);
        RotateLeft(tmp, s, lc, t, rc, dummy);
        u := RotatedLeft(t);
        Look(s, lc, u, rc, dummy);
        if root.right == null {
          return;
        }
      }
      stop := false;
      end, u, sp := StepRight(elm, left, s, lc, u, rc, dummy);
    }

    /** The loop starts with empty side trees hung off a node outside the tree. */
    lemma Begin(node: Node<K>)
      requires Valid() && node !in pool
      ensures Splits(CellsOf(pool + {node}), root, Base, shape, Base, node)
      ensures Whole(Base, shape, Base) == Elements()
      ensures Brackets(cmp, Base, Base, node.key)
    {
      HangsFrame(CellsOf(pool), CellsOf(pool + {node}), shape, root);
      assert Whole(Base, shape, Base) == Elements();
    }

    /** The loop of SPLAY */
    method Search(elm: Node<K>, node: Node<K>, ghost s: set<Node<K>>) returns (left: Node<K>, right: Node<K>,
        ghost lc: Side<K>, ghost t: Shape<K>, ghost rc: Side<K>)
      requires IsOrder(cmp) && shape.Join? && node in s
      requires Splaying(s, Base, shape, Base, node, elm.key)
      modifies `root, s
      ensures Splits(CellsOf(s), root, lc, t, rc, node) && Whole(lc, t, rc) == Whole(Base, shape, Base)
      ensures t.Join? && SplitAt(cmp, Assembled(lc, t, rc), elm.key)
      ensures left == End(lc, node) && right == End(rc, node) && left in s && right in s
    {
      left, right := node, node;
      lc, t, rc := Base, shape, Base;
      ghost var whole := Whole(lc, t, rc);
      Look(s, lc, t, rc, node);
      var comp := cmp(elm.key, root.key);
      while comp != 0
        invariant Splaying(s, lc, t, rc, node, elm.key) && Whole(lc, t, rc) == whole
        invariant left == End(lc, node) && right == End(rc, node) && left in s && right in s
        invariant comp == cmp(elm.key, t.node.key)
        decreases Size(t)
      {
        var stop;
        if comp < 0 {
          right, stop, t, rc := GoLeft(elm, right, s, lc, t, rc, node);
        } else {
          left, stop, t, lc := GoRight(elm, left, s, lc, t, rc, node);
        }
        Look(s, lc, t, rc, node);
        comp := cmp(elm.key, root.key);
        if stop {
          break;
        }
      }
      StopSplits(cmp, lc, t, rc, elm.key);
    }

    method AssembleShape(node: Node<K>, left: Node<K>, right: Node<K>, ghost s: set<Node<K>>,
        ghost lc: Side<K>, ghost t: Shape<K>, ghost rc: Side<K>)
      requires Splits(CellsOf(s), root, lc, t, rc, node) && t.Join?
      requires End(lc, node) == left && End(rc, node) == right && left in s && right in s
      modifies `shape, s
      ensures shape == Assembled(lc, t, rc) && root == t.node
      ensures Hangs(CellsOf(s), shape, root) && Distinct(shape)
    {
      Assemble(node, left, right, s, lc, t, rc);
      ghost var m := CellsOf(s);
      shape := Assembled(lc, t, rc);
      assert CellsOf(s) == m;
    }

    /** The tree is valid again if it is found whole in the snapshot `m` of more nodes. */
    lemma Regained(s: set<Node<K>>, m: Cells<K>, u: Shape<K>)
      requires IsOrder(cmp) && Ascending(cmp, Keys(Inorder(u))) && pool == Nodes(u) && pool <= s && shape == u
      requires m == CellsOf(s) && Hangs(m, u, root) && Distinct(u)
      ensures Valid()
    {
      HangsFrame(m, CellsOf(pool), u, root);
    }

    /** SPLAY_ASSEMBLE, as the end of a splay: the tree is whole again. */
    method Finish(node: Node<K>, left: Node<K>, right: Node<K>, ghost s: set<Node<K>>,
        ghost lc: Side<K>, ghost t: Shape<K>, ghost rc: Side<K>)
      requires IsOrder(cmp) && Ascending(cmp, Keys(Elements())) && pool == Nodes(shape) && pool <= s && t.Join?
      requires Splits(CellsOf(s), root, lc, t, rc, node) && Whole(lc, t, rc) == Elements()
      requires left == End(lc, node) && right == End(rc, node) && left in s && right in s
      modifies `shape, s
      ensures Valid() && shape == Assembled(lc, t, rc) && root == shape.node && Elements() == old(Elements())
    {
      SameWhole(lc, t, rc, shape);
      AssembleShape(node, left, right, s, lc, t, rc);
      Regained(s, CellsOf(s), Assembled(lc, t, rc));
    }

    /** SPLAY */
    method Splay(elm: Node<K>)
      requires Valid() && root != null
      modifies `root, `shape, pool
      ensures Valid() && SplitAt(cmp, shape, elm.key) && root == shape.node
      ensures Elements() == old(Elements()) && pool == old(pool)
    {
      var node := new Node(elm.key);
      Begin(node);
      var left, right;
      ghost var lc, t, rc;
      ghost var s := pool + {node};
      left, right, lc, t, rc := Search(elm, node, s);
      Finish(node, left, right, s, lc, t, rc);
    }

    /** The loop body of SPLAY_MINMAX on its way to the left end. */
    method RunLeft(right: Node<K>, ghost s: set<Node<K>>, ghost lc: Side<K>, ghost t: Shape<K>, ghost rc: Side<K>,
        ghost dummy: Node<K>) returns (end: Node<K>, stop: bool, ghost u: Shape<K>, ghost sp: Side<K>)
      requires Splits(CellsOf(s), root, lc, t, rc, dummy) && t.Join?
      requires End(rc, dummy) == right && right in s
      modifies `root, s
      ensures Splits(CellsOf(s), root, lc, u, sp, dummy) && u.Join? && Whole(lc, u, sp) == Whole(lc, t, rc)
      ensures End(sp, dummy) == end && end in s
      ensures if stop then u.left.Empty? else Size(u) < Size(t)
    {
      u, sp, end, stop := t, rc, right, true;
      Look(s, lc, t, rc, dummy);
      var tmp := root.left;
      if tmp == null {
        return;
      }
      RotatedRightSame(t);
      RotateRight(tmp, s, lc, t, rc, dummy);
      u := RotatedRight(t);
      Look(s, lc, u, rc, dummy);
      if root.left == null {
        return;
      }
      stop := false;
      LinkedSame(lc, u, rc);
      end := LinkLeft(right, s, lc, u, rc, dummy);
      u, sp := u.left, Link(u.node, u.right, rc);
    }

    /** The loop body of SPLAY_MINMAX on its way to the right end. */
    method RunRight(left: Node<K>, ghost s: set<Node<K>>, ghost lc: Side<K>, ghost t: Shape<K>, ghost rc: Side<K>,
        ghost dummy: Node<K>) returns (end: Node<K>, stop: bool, ghost u: Shape<K>, ghost sp: Side<K>)
      requires Splits(CellsOf(s), root, lc, t, rc, dummy) && t.Join?
      requires End(lc, dummy) == left && left in s
      modifies `root, s
      ensures Splits(CellsOf(s), root, sp, u, rc, dummy) && u.Join? && Whole(sp, u, rc) == Whole(lc, t, rc)
      ensures End(sp, dummy) == end && end in s
      ensures if stop then u.right.Empty? else Size(u) < Size(t)
    {
      u, sp, end, stop := t, lc, left, true;
      Look(s, lc, t, rc, dummy);
      var tmp := root.right;
      if tmp == null {
        return;
      }
      RotatedLeftSame(t);
      RotateLeft(tmp, s, lc, t, rc, dummy);
      u := RotatedLeft(t);
      Look(s, lc, u, rc, dummy);
      if root.right == null {
        return;
      }
      stop := false;
      LinkedSame(lc, u, rc);
      end := LinkRight(left, s, lc, u, rc, dummy);
      u, sp := u.right, Link(u.node, u.left, lc);
    }

    /** The loop of SPLAY_MINMAX */
    method SearchMinMax(comp: int, node: Node<K>) returns (left: Node<K>, right: Node<K>,
        ghost lc: Side<K>, ghost t: Shape<K>, ghost rc: Side<K>)
      requires comp != 0 && shape.Join? && Splits(CellsOf(pool + {node}), root, Base, shape, Base, node)
      modifies `root, pool, node
      ensures Splits(CellsOf(pool + {node}), root, lc, t, rc, node) && Whole(lc, t, rc) == Whole(Base, shape, Base)
      ensures t.Join? && if comp < 0 then lc == Base && t.left.Empty? else rc == Base && t.right.Empty?
      ensures left == End(lc, node) && right == End(rc, node) && left in pool + {node} && right in pool + {node}
    {
      var stop;
      left, right, stop := node, node, false;
      lc, t, rc := Base, shape, Base;
      ghost var s, whole := pool + {node}, Whole(Base, shape, Base);
      while !stop
        invariant Splits(CellsOf(s), root, lc, t, rc, node) && t.Join? && Whole(lc, t, rc) == whole
        invariant left == End(lc, node) && right == End(rc, node) && left in s && right in s
        invariant if comp < 0 then lc == Base && (stop ==> t.left.Empty?) else rc == Base && (stop ==> t.right.Empty?)
        decreases !stop, Size(t)
      {
        if comp < 0 {
          right, stop, t, rc := RunLeft(right, s, lc, t, rc, node);
        } else {
          left, stop, t, lc := RunRight(left, s, lc, t, rc, node);
        }
      }
    }

    /** SPLAY_MINMAX, which its callers use with SPLAY_NEGINF and SPLAY_INF only. */
    method SplayMinMax(comp: int)
      requires Valid() && root != null && comp != 0
      modifies `root, `shape, pool
      ensures Valid() && shape.Join? && root == shape.node && Elements() == old(Elements())
      ensures if comp < 0 then shape.left.Empty? else shape.right.Empty?
    {
      var node := new Node(root.key);
      Begin(node);
      var left, right;
      ghost var lc, t, rc;
      left, right, lc, t, rc := SearchMinMax(comp, node);
      Finish(node, left, right, pool + {node}, lc, t, rc);
    }

    // ---------------------------------------------------------------- operations

    /** SPLAY_MIN and SPLAY_MAX */
    method MinMax(val: int) returns (r: Node?<K>)
      requires Valid() && val != 0
      modifies `root, `shape, pool
      ensures Valid() && Elements() == old(Elements()) && pool == old(pool)
      ensures r == NodeAt(Elements(), if val < 0 then 0 else |Elements()| - 1) && root == r
    {
      if root == null {
        assert shape == Empty;
        return null;
      }
      SplayMinMax(val);
      OuterRoot(shape);
      r := root;
    }

    /** SPLAY_FIND */
    method Find(elm: Node<K>) returns (r: Node?<K>)
      requires Valid()
      modifies `root, `shape, pool
      ensures Valid() && Elements() == old(Elements())
      ensures r != null ==> r == root && r in Elements() && cmp(elm.key, r.key) == 0
      ensures r == null ==> Lacks(cmp, Keys(Elements()), elm.key)
    {
      if root == null {
        assert shape == Empty;
        return null;
      }
      Splay(elm);
      RootDecides(cmp, shape, elm.key);
      if cmp(elm.key, root.key) == 0 {
        return root;
      }
      return null;
    }

    /** SPLAY_NEXT of a node of the tree */
    method Next(x: Node<K>) returns (elm: Node?<K>)
      requires Valid() && x in pool
      modifies `root, `shape, pool
      ensures Valid() && pool == old(pool) && Elements() == old(Elements()) && root == x
      ensures forall i :: 0 <= i < |Elements()| && Elements()[i] == x ==> elm == NodeAt(Elements(), i + 1)
    {
      InorderNodes(shape);
      Rooted(CellsOf(pool), shape, root);
      Splay(x);
      InorderNodes(shape);
      OnlyAtRoot(cmp, shape, x);
      Rooted(CellsOf(pool), shape.right, root.right);
      if x.right != null {
        elm := Leftmost(x.right, shape.right);
      } else {
        elm := null;
      }
    }

    /** The descent of SPLAY_NEXT */
    method Leftmost(x: Node<K>, ghost tx: Shape<K>) returns (elm: Node<K>)
      requires Hangs(CellsOf(pool), tx, x)
      ensures elm == NodeAt(Inorder(tx), 0)
    {
      elm := x;
      ghost var t := tx;
      Rooted(CellsOf(pool), t.left, elm.left);
      while elm.left != null
        invariant Hangs(CellsOf(pool), t, elm) && t.Join? && t.node == elm && elm in pool
        invariant elm.left == RootOf(t.left) && NodeAt(Inorder(t), 0) == NodeAt(Inorder(tx), 0)
        decreases t
      {
        elm := elm.left;
        assert Inorder(t)[0] == Inorder(t.left)[0];
        t := t.left;
        Rooted(CellsOf(pool), t.left, elm.left);
      }
    }

    /** The part of SPLAY_INSERT that puts the new node above the splayed root. */
    method InsertAbove(elm: Node<K>, comp: int)
      requires Valid() && elm !in pool && SplitAt(cmp, shape, elm.key) && root == shape.node
      requires comp == cmp(elm.key, root.key) && comp != 0
      modifies `root, `pool, `shape, pool, elm
      ensures Valid() && pool == old(pool) + {elm} && shape == Inserted(old(shape), elm, comp < 0)
    {
      Antisymmetric(cmp, elm.key, root.key);
      InsertedSorted(cmp, shape, elm, comp < 0);
      ghost var m, t := CellsOf(pool), shape;
      RelinkAbove(elm, comp);
      root := elm;
      pool := pool + {elm};
      shape := Inserted(t, elm, comp < 0);
      InsertedNodes(t, elm, comp < 0);
      InsertedHangs(m, CellsOf(pool), t, elm, comp < 0);
    }

    method RelinkAbove(elm: Node<K>, comp: int)
      requires root != null && root in pool && elm !in pool && comp != 0
      modifies elm, root
      ensures elm.left == (if comp < 0 then old(root.left) else root)
      ensures elm.right == (if comp < 0 then root else old(root.right))
      ensures root.left == (if comp < 0 then null else old(root.left))
      ensures root.right == (if comp < 0 then old(root.right) else null)
    {
      if comp < 0 {
        elm.left := root.left;
        elm.right := root;
        root.left := null;
      } else {
        elm.right := root.right;
        elm.left := root;
        root.right := null;
      }
    }

    /** A node of the tree is the only one there with its key. */
    lemma Resident(elm: Node<K>)
      requires Valid() && elm in pool
      ensures !Lacks(cmp, Keys(Elements()), elm.key)
      ensures forall x :: x in Elements() && cmp(elm.key, x.key) == 0 ==> x == elm
    {
      InorderNodes(shape);
      var i :| 0 <= i < |Elements()| && Elements()[i] == elm;
      OnlyOne(cmp, Keys(Elements()), i);
      forall x | x in Elements() && cmp(elm.key, x.key) == 0 ensures x == elm {
        var j :| 0 <= j < |Elements()| && Elements()[j] == x;
        assert Keys(Elements())[j] == x.key;
      }
    }

    /** SPLAY_INSERT. The ghost result is the position at which the new node is inserted. */
    method Insert(elm: Node<K>) returns (r: Node?<K>, ghost i: nat)
      requires Valid()
      modifies `root, `pool, `shape, pool, elm
      ensures Valid() && (elm in old(pool) ==> r == elm) && root == (if r == null then elm else r)
      ensures r != null ==>
                && r in Elements() && cmp(elm.key, r.key) == 0
                && Elements() == old(Elements()) && pool == old(pool)
      ensures r == null ==>
                && Lacks(cmp, Keys(old(Elements())), elm.key) && pool == old(pool) + {elm}
                && i <= |old(Elements())| && Elements() == old(Elements()[..i]) + [elm] + old(Elements()[i..])
    {
      i := 0;
      Rooted(CellsOf(pool), shape, root);
      if root == null {
        elm.left, elm.right := null, null;
        pool := {elm};
        shape := Join(Empty, elm, Empty);
        root := elm;
      } else {
        Splay(elm);
        InorderNodes(shape);
        assert pool == SetOf(old(Elements()));
        RootDecides(cmp, shape, elm.key);
        if elm in pool { Resident(elm); }
        var comp := cmp(elm.key, root.key);
        if comp == 0 {
          return root, i;
        }
        Antisymmetric(cmp, elm.key, root.key);
        InsertedInorder(shape, elm, comp < 0);
        i := |Inorder(shape.left)| + (if comp < 0 then 0 else 1);
        InsertAbove(elm, comp);
      }
      return null, i;
    }

    /** The part of SPLAY_REMOVE that joins the two sides of the splayed root. */
    method DropRoot(elm: Node<K>)
      requires Valid() && SplitAt(cmp, shape, elm.key) && root == shape.node
      modifies `root, `pool, `shape, pool
      ensures Valid() && pool == old(pool) - {old(root)}
      ensures Elements() == old(Inorder(shape.left) + Inorder(shape.right))
    {
      ghost var m, t := CellsOf(pool), shape;
      Rooted(m, t.left, root.left);
      SidesSorted(cmp, t);
      if root.left == null {
        assert Inorder(t.left) + Inorder(t.right) == Inorder(t.right);
        Descend(root.right, t.right);
      } else {
        var tmp := root.right;
        Descend(root.left, t.left);
        HangsFrame(m, CellsOf(Nodes(t.right)), t.right, tmp);
        JoinSides(elm, tmp, t.right);
      }
    }

    /** Makes a sorted part of the tree the whole. */
    method Descend(side: Node?<K>, ghost u: Shape<K>)
      requires IsOrder(cmp) && Ascending(cmp, Keys(Inorder(u)))
      requires Hangs(CellsOf(pool), u, side) && Distinct(u) && Nodes(u) <= pool
      modifies `root, `pool, `shape
      ensures Valid() && root == side && shape == u && pool == Nodes(u)
    {
      ghost var s, m := pool, CellsOf(pool);
      root := side;
      shape, pool := u, Nodes(u);
      Regained(s, m, u);
    }

    /** SPLAY_REMOVE once `root` is the left side and `tmp` the right side. */
    method JoinSides(elm: Node<K>, tmp: Node?<K>, ghost r: Shape<K>)
      requires Valid() && root != null && AllBelow(cmp, Keys(Elements()), elm.key)
      requires Hangs(CellsOf(Nodes(r)), r, tmp) && Distinct(r) && Nodes(r) !! pool
      requires Ascending(cmp, Keys(Elements() + Inorder(r)))
      modifies `root, `pool, `shape, pool
      ensures Valid() && pool == old(pool) + Nodes(r) && Elements() == old(Elements()) + Inorder(r)
    {
      ghost var mr := CellsOf(Nodes(r));
      SplayLeft(elm);
      assert CellsOf(Nodes(r)) == mr;
      Reattach(tmp, r);
    }

    /** Splaying at a key above all keys brings the greatest node to the root. */
    method SplayLeft(elm: Node<K>)
      requires Valid() && root != null && AllBelow(cmp, Keys(Elements()), elm.key)
      modifies `root, `shape, pool
      ensures Valid() && shape.Join? && root == shape.node && shape.right.Empty?
      ensures Elements() == old(Elements()) && pool == old(pool)
    {
      Splay(elm);
      NoneAbove(cmp, shape, elm.key);
    }

    /** The last assignment of SPLAY_REMOVE: the right side goes below the greatest node of the left. */
    method Reattach(tmp: Node?<K>, ghost r: Shape<K>)
      requires Valid() && shape.Join? && root == shape.node && shape.right.Empty?
      requires Hangs(CellsOf(Nodes(r)), r, tmp) && Distinct(r) && Nodes(r) !! pool
      requires Ascending(cmp, Keys(Elements() + Inorder(r)))
      modifies `pool, `shape, root
      ensures Valid() && pool == old(pool) + Nodes(r) && Elements() == old(Elements()) + Inorder(r)
    {
      ghost var m, mr, t := CellsOf(pool), CellsOf(Nodes(r)), shape;
      root.right := tmp;
      pool := pool + Nodes(r);
      shape := Join(t.left, t.node, r);
      assert Inorder(t) == Inorder(t.left) + [t.node];
      HangsFrame(m, CellsOf(pool), t.left, root.left);
      HangsFrame(mr, CellsOf(pool), r, tmp);
    }

    /** SPLAY_REMOVE. The ghost result is the position of the removed node; the returned pointer is
        the argument, which need not be the node that was in the tree. */
    method Remove(elm: Node<K>) returns (r: Node?<K>, ghost i: nat)
      requires Valid()
      modifies `root, `pool, `shape, pool
      ensures Valid()
      ensures r == null ==>
                Lacks(cmp, Keys(old(Elements())), elm.key) && Elements() == old(Elements()) && pool == old(pool)
      ensures r != null ==>
                && r == elm && i < |old(Elements())| && cmp(elm.key, old(Elements())[i].key) == 0
                && Elements() == old(Elements())[..i] + old(Elements())[i + 1..]
                && pool == old(pool) - {old(Elements())[i]}
    {
      i := 0;
      Rooted(CellsOf(pool), shape, root);
      if root == null {
        return null, i;
      }
      Splay(elm);
      RootDecides(cmp, shape, elm.key);
      if cmp(elm.key, root.key) == 0 {
        i := |Inorder(shape.left)|;
        assert Elements()[i] == root && Elements()[..i] == Inorder(shape.left)
            && Elements()[i + 1..] == Inorder(shape.right);
        DropRoot(elm);
        return elm, i;
      }
      return null, i;
    }

    /** SPLAY_NEXT of the node at position `i`. */
    method NextAt(x: Node<K>, ghost i: nat) returns (y: Node?<K>)
      requires Valid() && i < |Elements()| && Elements()[i] == x
      modifies `root, `shape, pool
      ensures Valid() && pool == old(pool) && Elements() == old(Elements()) && y == NodeAt(Elements(), i + 1)
    {
      InorderNodes(shape);
      y := Next(x);
      assert Elements()[i] == x;
    }

    /** SPLAY_FOREACH, with a body that notes the node. */
    method Foreach() returns (visited: seq<Node<K>>)
      requires Valid()
      modifies `root, `shape, pool
      ensures Valid() && Elements() == old(Elements()) && visited == Elements()
    {
      ghost var e := Elements();
      visited := [];
      var x := MinMax(-1);
      while x != null
        invariant Valid() && Elements() == e && pool == old(pool)
        invariant |visited| <= |e| && visited == e[..|visited|] && x == NodeAt(e, |visited|)
        decreases |e| - |visited|
      {
        var y := NextAt(x, |visited|);
        visited := visited + [x];
        x := y;
      }
    }
  }
}
