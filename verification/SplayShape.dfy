/** Top-down splaying on values: the tree still to be searched, and the two side trees that the
    splay loop grows, each known by the spine along which it grows. */
module SplayShape {
  import opened Sequences

  datatype Tree<X> = Empty | Join(left: Tree<X>, node: X, right: Tree<X>)

  /** A side tree from its growing end: the last node linked, its finished subtree, and the rest.
      In the left tree the finished subtrees are left children, in the right tree right children. */
  datatype Spine<X> = Base | Link(node: X, side: Tree<X>, up: Spine<X>)

  function Inorder<X>(t: Tree<X>): seq<X> {
    match t
    case Empty => []
    case Join(l, n, r) => Inorder(l) + [n] + Inorder(r)
  }

  function LeftSeq<X>(s: Spine<X>): seq<X> {
    match s
    case Base => []
    case Link(n, l, up) => LeftSeq(up) + (Inorder(l) + [n])
  }

  function RightSeq<X>(s: Spine<X>): seq<X> {
    match s
    case Base => []
    case Link(n, r, up) => ([n] + Inorder(r)) + RightSeq(up)
  }

  /** The left side tree once `a` is stored at its growing end. */
  function LeftTree<X>(s: Spine<X>, a: Tree<X>): Tree<X>
    decreases s
  {
    match s
    case Base => a
    case Link(n, l, up) => LeftTree(up, Join(l, n, a))
  }

  function RightTree<X>(s: Spine<X>, a: Tree<X>): Tree<X>
    decreases s
  {
    match s
    case Base => a
    case Link(n, r, up) => RightTree(up, Join(a, n, r))
  }

  lemma Regroup<X>(a: seq<X>, b: seq<X>, c: seq<X>)
    ensures a + (b + c) == a + b + c
  {
  }

  lemma {:induction false} LeftTreeInorder<X>(s: Spine<X>, a: Tree<X>)
    ensures Inorder(LeftTree(s, a)) == LeftSeq(s) + Inorder(a)
    decreases s
  {
    if s.Base? {
    } else {
      LeftTreeInorder(s.up, Join(s.side, s.node, a));
      Regroup(LeftSeq(s.up), Inorder(s.side) + [s.node], Inorder(a));
    }
  }

  lemma {:induction false} RightTreeInorder<X>(s: Spine<X>, a: Tree<X>)
    ensures Inorder(RightTree(s, a)) == Inorder(a) + RightSeq(s)
    decreases s
  {
    if s.Base? {
    } else {
      RightTreeInorder(s.up, Join(a, s.node, s.side));
      Regroup(Inorder(a), [s.node], Inorder(s.side));
      Regroup(Inorder(a), [s.node] + Inorder(s.side), RightSeq(s.up));
    }
  }

  /** The sequence that every step of the splay loop keeps. */
  function Whole<X>(lc: Spine<X>, t: Tree<X>, rc: Spine<X>): seq<X> {
    LeftSeq(lc) + Inorder(t) + RightSeq(rc)
  }

  /** SPLAY_ASSEMBLE on values. */
  function Assembled<X>(lc: Spine<X>, t: Tree<X>, rc: Spine<X>): Tree<X>
    requires t.Join?
  {
    Join(LeftTree(lc, t.left), t.node, RightTree(rc, t.right))
  }

  lemma AssembledInorder<X>(lc: Spine<X>, t: Tree<X>, rc: Spine<X>)
    requires t.Join?
    ensures Inorder(Assembled(lc, t, rc)) == Whole(lc, t, rc)
    ensures Inorder(LeftTree(lc, t.left)) == LeftSeq(lc) + Inorder(t.left)
    ensures Inorder(RightTree(rc, t.right)) == Inorder(t.right) + RightSeq(rc)
  {
    LeftTreeInorder(lc, t.left);
    RightTreeInorder(rc, t.right);
    Regroup(LeftSeq(lc), Inorder(t.left), [t.node]);
    Regroup(LeftSeq(lc), Inorder(t.left) + [t.node], Inorder(t.right));
    Regroup(LeftSeq(lc) + Inorder(t.left) + [t.node], Inorder(t.right), RightSeq(rc));
  }

  function RotatedRight<X>(t: Tree<X>): Tree<X>
    requires t.Join? && t.left.Join?
  {
    Join(t.left.left, t.left.node, Join(t.left.right, t.node, t.right))
  }

  function RotatedLeft<X>(t: Tree<X>): Tree<X>
    requires t.Join? && t.right.Join?
  {
    Join(Join(t.left, t.node, t.right.left), t.right.node, t.right.right)
  }

  function Size<X>(t: Tree<X>): nat {
    if t.Empty? then 0 else Size(t.left) + 1 + Size(t.right)
  }

  lemma Reassociate<X>(a: seq<X>, y: X, b: seq<X>, x: X, c: seq<X>)
    ensures a + [y] + (b + [x] + c) == (a + [y] + b) + [x] + c
  {
  }

  lemma RotatedRightSame<X>(t: Tree<X>)
    requires t.Join? && t.left.Join?
    ensures Inorder(RotatedRight(t)) == Inorder(t) && Size(RotatedRight(t)) == Size(t)
  {
    Reassociate(Inorder(t.left.left), t.left.node, Inorder(t.left.right), t.node, Inorder(t.right));
  }

  lemma RotatedLeftSame<X>(t: Tree<X>)
    requires t.Join? && t.right.Join?
    ensures Inorder(RotatedLeft(t)) == Inorder(t) && Size(RotatedLeft(t)) == Size(t)
  {
    Reassociate(Inorder(t.left), t.node, Inorder(t.right.left), t.right.node, Inorder(t.right.right));
  }

  lemma LinkedSame<X>(lc: Spine<X>, t: Tree<X>, rc: Spine<X>)
    requires t.Join?
    ensures Whole(lc, t.left, Link(t.node, t.right, rc)) == Whole(lc, t, rc)
    ensures Whole(Link(t.node, t.left, lc), t.right, rc) == Whole(lc, t, rc)
  {
    var (a, b, c, n, d) := (LeftSeq(lc), Inorder(t.left), Inorder(t.right), [t.node], RightSeq(rc));
    assert a + b + (n + c + d) == a + (b + n + c) + d;
    assert a + (b + n) + c + d == a + (b + n + c) + d;
  }

  // ------------------------------------------------------------------ node sets

  ghost function Nodes<X>(t: Tree<X>): set<X> {
    if t.Empty? then {} else Nodes(t.left) + {t.node} + Nodes(t.right)
  }

  ghost predicate Distinct<X>(t: Tree<X>) {
    t.Join? ==>
      && Distinct(t.left) && Distinct(t.right)
      && t.node !in Nodes(t.left) && t.node !in Nodes(t.right) && Nodes(t.left) !! Nodes(t.right)
  }

  ghost function SpineNodes<X>(s: Spine<X>): set<X> {
    if s.Base? then {} else SpineNodes(s.up) + {s.node} + Nodes(s.side)
  }

  ghost predicate SpineDistinct<X>(s: Spine<X>) {
    s.Link? ==>
      && SpineDistinct(s.up) && Distinct(s.side)
      && s.node !in SpineNodes(s.up) && s.node !in Nodes(s.side) && SpineNodes(s.up) !! Nodes(s.side)
  }

  lemma {:induction false} LeftTreeNodes<X>(s: Spine<X>, a: Tree<X>)
    requires SpineDistinct(s) && Distinct(a) && SpineNodes(s) !! Nodes(a)
    ensures Distinct(LeftTree(s, a)) && Nodes(LeftTree(s, a)) == SpineNodes(s) + Nodes(a)
    decreases s
  {
    if s.Base? {
    } else {
      LeftTreeNodes(s.up, Join(s.side, s.node, a));
    }
  }

  lemma {:induction false} RightTreeNodes<X>(s: Spine<X>, a: Tree<X>)
    requires SpineDistinct(s) && Distinct(a) && SpineNodes(s) !! Nodes(a)
    ensures Distinct(RightTree(s, a)) && Nodes(RightTree(s, a)) == SpineNodes(s) + Nodes(a)
    decreases s
  {
    if s.Base? {
    } else {
      RightTreeNodes(s.up, Join(a, s.node, s.side));
    }
  }

  lemma AssembledNodes<X>(lc: Spine<X>, t: Tree<X>, rc: Spine<X>)
    requires t.Join? && SpineDistinct(lc) && Distinct(t) && SpineDistinct(rc)
    requires SpineNodes(lc) !! Nodes(t) && SpineNodes(rc) !! Nodes(t) && SpineNodes(lc) !! SpineNodes(rc)
    ensures Distinct(Assembled(lc, t, rc))
    ensures Nodes(Assembled(lc, t, rc)) == SpineNodes(lc) + Nodes(t) + SpineNodes(rc)
    ensures t.node !in Nodes(LeftTree(lc, t.left)) && t.node !in Nodes(RightTree(rc, t.right))
  {
    LeftTreeNodes(lc, t.left);
    RightTreeNodes(rc, t.right);
  }

  lemma {:induction false} InorderNodes<X>(t: Tree<X>)
    ensures Nodes(t) == SetOf(Inorder(t))
  {
    if t.Empty? {
    } else {
      InorderNodes(t.left);
      InorderNodes(t.right);
      SetOfConcat(Inorder(t.left), [t.node]);
      SetOfConcat(Inorder(t.left) + [t.node], Inorder(t.right));
    }
  }
}
