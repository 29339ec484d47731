/** How the three trees of a splay loop lie in memory. */
module SplayMemory {
  import opened SplayShape

  /** An element with its embedded `SPLAY_ENTRY`. */
  class Node<K> {
    var left: Node?<K>
    var right: Node?<K>
    const key: K

    constructor (key: K)
      ensures this.key == key && left == null && right == null
    {
      this.key := key;
      left, right := null, null;
    }
  }

  type Shape<K> = Tree<Node<K>>
  type Side<K> = Spine<Node<K>>

  datatype Cell<K> = Cell(left: Node?<K>, right: Node?<K>)
  type Cells<K> = map<Node<K>, Cell<K>>

  ghost predicate Hangs<K>(m: Cells<K>, t: Shape<K>, x: Node?<K>) {
    match t
    case Empty => x == null
    case Join(l, n, r) => x == n && n in m && Hangs(m, l, m[n].left) && Hangs(m, r, m[n].right)
  }

  /** The node at the growing end of a side tree; `dummy` stands for the empty one. */
  ghost function End<K>(s: Side<K>, dummy: Node<K>): Node<K> {
    if s.Base? then dummy else s.node
  }

  /** The left side tree hangs off `dummy.right`; the right pointer of its end is still open. */
  ghost predicate LeftHangs<K>(m: Cells<K>, s: Side<K>, dummy: Node<K>) {
    s.Link? ==>
      && s.node in m && Hangs(m, s.side, m[s.node].left)
      && End(s.up, dummy) in m && m[End(s.up, dummy)].right == s.node
      && LeftHangs(m, s.up, dummy)
  }

  /** The right side tree hangs off `dummy.left`; the left pointer of its end is still open. */
  ghost predicate RightHangs<K>(m: Cells<K>, s: Side<K>, dummy: Node<K>) {
    s.Link? ==>
      && s.node in m && Hangs(m, s.side, m[s.node].right)
      && End(s.up, dummy) in m && m[End(s.up, dummy)].left == s.node
      && RightHangs(m, s.up, dummy)
  }

  ghost predicate Apart<K>(lc: Side<K>, t: Shape<K>, rc: Side<K>, dummy: Node<K>) {
    && SpineDistinct(lc) && Distinct(t) && SpineDistinct(rc)
    && SpineNodes(lc) !! Nodes(t) && SpineNodes(rc) !! Nodes(t) && SpineNodes(lc) !! SpineNodes(rc)
    && dummy !in SpineNodes(lc) && dummy !in Nodes(t) && dummy !in SpineNodes(rc)
  }

  /** Memory holds the left, middle and right tree of a splay loop. */
  ghost predicate Splits<K>(m: Cells<K>, root: Node?<K>, lc: Side<K>, t: Shape<K>, rc: Side<K>, dummy: Node<K>) {
    && LeftHangs(m, lc, dummy) && Hangs(m, t, root) && RightHangs(m, rc, dummy)
    && dummy in m && Apart(lc, t, rc, dummy)
  }

  ghost function RootOf<K>(t: Shape<K>): Node?<K> {
    if t.Join? then t.node else null
  }

  lemma Rooted<K>(m: Cells<K>, t: Shape<K>, x: Node?<K>)
    requires Hangs(m, t, x)
    ensures x == RootOf(t) && (x != null ==> x in Nodes(t) && x in m)
  {
  }

  // ------------------------------------------------------------------ what updates leave alone

  lemma {:induction false} HangsFrame<K>(m: Cells<K>, m': Cells<K>, t: Shape<K>, x: Node?<K>)
    requires Hangs(m, t, x)
    requires forall n :: n in Nodes(t) && n in m ==> n in m' && m[n] == m'[n]
    ensures Hangs(m', t, x)
  {
    if t.Empty? {
    } else {
      HangsFrame(m, m', t.left, m[x].left);
      HangsFrame(m, m', t.right, m[x].right);
    }
  }

  lemma {:induction false} LeftFrame<K>(m: Cells<K>, m': Cells<K>, s: Side<K>, dummy: Node<K>)
    requires LeftHangs(m, s, dummy) && SpineDistinct(s) && dummy !in SpineNodes(s)
    requires forall n :: n in SpineNodes(s) && n in m && n != End(s, dummy) ==> n in m' && m[n] == m'[n]
    requires s.Link? && s.node in m ==> s.node in m' && m[s.node].left == m'[s.node].left
    requires s.Link? && dummy in m ==> dummy in m' && m[dummy].right == m'[dummy].right
    ensures LeftHangs(m', s, dummy)
  {
    if s.Base? {
    } else {
      HangsFrame(m, m', s.side, m[s.node].left);
      LeftFrameDeep(m, m', s.up, dummy);
    }
  }

  lemma {:induction false} LeftFrameDeep<K>(m: Cells<K>, m': Cells<K>, s: Side<K>, dummy: Node<K>)
    requires LeftHangs(m, s, dummy)
    requires forall n :: n in SpineNodes(s) && n in m ==> n in m' && m[n] == m'[n]
    requires dummy in m ==> dummy in m' && m[dummy].right == m'[dummy].right
    ensures LeftHangs(m', s, dummy)
  {
    if s.Base? {
    } else {
      HangsFrame(m, m', s.side, m[s.node].left);
      LeftFrameDeep(m, m', s.up, dummy);
    }
  }

  lemma {:induction false} RightFrame<K>(m: Cells<K>, m': Cells<K>, s: Side<K>, dummy: Node<K>)
    requires RightHangs(m, s, dummy) && SpineDistinct(s) && dummy !in SpineNodes(s)
    requires forall n :: n in SpineNodes(s) && n in m && n != End(s, dummy) ==> n in m' && m[n] == m'[n]
    requires s.Link? && s.node in m ==> s.node in m' && m[s.node].right == m'[s.node].right
    requires s.Link? && dummy in m ==> dummy in m' && m[dummy].left == m'[dummy].left
    ensures RightHangs(m', s, dummy)
  {
    if s.Base? {
    } else {
      HangsFrame(m, m', s.side, m[s.node].right);
      RightFrameDeep(m, m', s.up, dummy);
    }
  }

  lemma {:induction false} RightFrameDeep<K>(m: Cells<K>, m': Cells<K>, s: Side<K>, dummy: Node<K>)
    requires RightHangs(m, s, dummy)
    requires forall n :: n in SpineNodes(s) && n in m ==> n in m' && m[n] == m'[n]
    requires dummy in m ==> dummy in m' && m[dummy].left == m'[dummy].left
    ensures RightHangs(m', s, dummy)
  {
    if s.Base? {
    } else {
      HangsFrame(m, m', s.side, m[s.node].right);
      RightFrameDeep(m, m', s.up, dummy);
    }
  }

  /** Once the open pointer is filled, the left side tree is an ordinary tree. */
  lemma {:induction false} LeftFilled<K>(m: Cells<K>, s: Side<K>, a: Shape<K>, dummy: Node<K>)
    requires LeftHangs(m, s, dummy) && End(s, dummy) in m && Hangs(m, a, m[End(s, dummy)].right)
    ensures dummy in m && Hangs(m, LeftTree(s, a), m[dummy].right)
    decreases s
  {
    if s.Base? {
    } else {
      LeftFilled(m, s.up, Join(s.side, s.node, a), dummy);
    }
  }

  lemma {:induction false} RightFilled<K>(m: Cells<K>, s: Side<K>, a: Shape<K>, dummy: Node<K>)
    requires RightHangs(m, s, dummy) && End(s, dummy) in m && Hangs(m, a, m[End(s, dummy)].left)
    ensures dummy in m && Hangs(m, RightTree(s, a), m[dummy].left)
    decreases s
  {
    if s.Base? {
    } else {
      RightFilled(m, s.up, Join(a, s.node, s.side), dummy);
    }
  }

  // ------------------------------------------------------------------ the macros

  ghost predicate Same<K>(m: Cells<K>, m': Cells<K>, except: set<Node<K>>) {
    m'.Keys == m.Keys && forall n :: n in m && n !in except ==> m'[n] == m[n]
  }

  lemma RotateRightHangs<K>(m: Cells<K>, m': Cells<K>, t: Shape<K>)
    requires t.Join? && t.left.Join? && Hangs(m, t, t.node) && Distinct(t)
    requires Same(m, m', {t.node, t.left.node}) && t.left.node in m
    requires m'[t.node] == m[t.node].(left := m[t.left.node].right)
    requires m'[t.left.node] == m[t.left.node].(right := t.node)
    ensures Hangs(m', RotatedRight(t), t.left.node)
    ensures Nodes(RotatedRight(t)) == Nodes(t) && Distinct(RotatedRight(t))
  {
    var (x, y) := (t.node, t.left.node);
    Rooted(m, t.left, m[x].left);
    assert Hangs(m, t.left, y) && Distinct(t.left);
    HangsFrame(m, m', t.left.left, m[y].left);
    HangsFrame(m, m', t.left.right, m[y].right);
    HangsFrame(m, m', t.right, m[x].right);
    assert Hangs(m', RotatedRight(t).right, x);
  }

  /** SPLAY_ROTATE_RIGHT: `x` was the root and becomes the right child of its left child `y`. */
  lemma RotateRightSplits<K>(m: Cells<K>, m': Cells<K>, lc: Side<K>, t: Shape<K>, rc: Side<K>, dummy: Node<K>)
    requires t.Join? && t.left.Join? && Splits(m, t.node, lc, t, rc, dummy)
    requires Same(m, m', {t.node, t.left.node}) && t.left.node in m
    requires m'[t.node] == m[t.node].(left := m[t.left.node].right)
    requires m'[t.left.node] == m[t.left.node].(right := t.node)
    ensures Splits(m', t.left.node, lc, RotatedRight(t), rc, dummy)
  {
    RotateRightHangs(m, m', t);
    LeftFrameDeep(m, m', lc, dummy);
    RightFrameDeep(m, m', rc, dummy);
  }

  lemma RotateLeftHangs<K>(m: Cells<K>, m': Cells<K>, t: Shape<K>)
    requires t.Join? && t.right.Join? && Hangs(m, t, t.node) && Distinct(t)
    requires Same(m, m', {t.node, t.right.node}) && t.right.node in m
    requires m'[t.node] == m[t.node].(right := m[t.right.node].left)
    requires m'[t.right.node] == m[t.right.node].(left := t.node)
    ensures Hangs(m', RotatedLeft(t), t.right.node)
    ensures Nodes(RotatedLeft(t)) == Nodes(t) && Distinct(RotatedLeft(t))
  {
    var (x, y) := (t.node, t.right.node);
    Rooted(m, t.right, m[x].right);
    assert Hangs(m, t.right, y) && Distinct(t.right);
    HangsFrame(m, m', t.right.right, m[y].right);
    HangsFrame(m, m', t.right.left, m[y].left);
    HangsFrame(m, m', t.left, m[x].left);
    assert Hangs(m', RotatedLeft(t).left, x);
  }

  lemma RotateLeftSplits<K>(m: Cells<K>, m': Cells<K>, lc: Side<K>, t: Shape<K>, rc: Side<K>, dummy: Node<K>)
    requires t.Join? && t.right.Join? && Splits(m, t.node, lc, t, rc, dummy)
    requires Same(m, m', {t.node, t.right.node}) && t.right.node in m
    requires m'[t.node] == m[t.node].(right := m[t.right.node].left)
    requires m'[t.right.node] == m[t.right.node].(left := t.node)
    ensures Splits(m', t.right.node, lc, RotatedLeft(t), rc, dummy)
  {
    RotateLeftHangs(m, m', t);
    LeftFrameDeep(m, m', lc, dummy);
    RightFrameDeep(m, m', rc, dummy);
  }

  /** SPLAY_LINKLEFT: the root is stored at the growing end of the right side tree. */
  lemma LinkLeftSplits<K>(m: Cells<K>, m': Cells<K>, lc: Side<K>, t: Shape<K>, rc: Side<K>, dummy: Node<K>)
    requires t.Join? && Splits(m, t.node, lc, t, rc, dummy)
    requires Same(m, m', {End(rc, dummy)}) && End(rc, dummy) in m
    requires m'[End(rc, dummy)] == m[End(rc, dummy)].(left := t.node)
    ensures Splits(m', m[t.node].left, lc, t.left, Link(t.node, t.right, rc), dummy)
  {
    HangsFrame(m, m', t.left, m[t.node].left);
    HangsFrame(m, m', t.right, m[t.node].right);
    LeftFrameDeep(m, m', lc, dummy);
    RightFrame(m, m', rc, dummy);
  }

  /** SPLAY_LINKRIGHT: the root is stored at the growing end of the left side tree. */
  lemma LinkRightSplits<K>(m: Cells<K>, m': Cells<K>, lc: Side<K>, t: Shape<K>, rc: Side<K>, dummy: Node<K>)
    requires t.Join? && Splits(m, t.node, lc, t, rc, dummy)
    requires Same(m, m', {End(lc, dummy)}) && End(lc, dummy) in m
    requires m'[End(lc, dummy)] == m[End(lc, dummy)].(right := t.node)
    ensures Splits(m', m[t.node].right, Link(t.node, t.left, lc), t.right, rc, dummy)
  {
    HangsFrame(m, m', t.left, m[t.node].left);
    HangsFrame(m, m', t.right, m[t.node].right);
    RightFrameDeep(m, m', rc, dummy);
    LeftFrame(m, m', lc, dummy);
  }

  /** The first two assignments of SPLAY_ASSEMBLE fill the open pointers of both side trees. */
  ghost predicate EndsFilled<K>(m: Cells<K>, m': Cells<K>, x: Node<K>, l: Node<K>, r: Node<K>) {
    && Same(m, m', {l, r}) && x in m && l in m && r in m
    && m'[l].right == m[x].left && m'[r].left == m[x].right
    && (l != r ==> m'[l].left == m[l].left && m'[r].right == m[r].right)
  }

  lemma FilledHang<K>(m: Cells<K>, m': Cells<K>, lc: Side<K>, t: Shape<K>, rc: Side<K>, dummy: Node<K>)
    requires t.Join? && Splits(m, t.node, lc, t, rc, dummy)
    requires EndsFilled(m, m', t.node, End(lc, dummy), End(rc, dummy))
    ensures Hangs(m', LeftTree(lc, t.left), m'[dummy].right)
    ensures Hangs(m', RightTree(rc, t.right), m'[dummy].left)
  {
    HangsFrame(m, m', t.left, m[t.node].left);
    HangsFrame(m, m', t.right, m[t.node].right);
    LeftFrame(m, m', lc, dummy);
    RightFrame(m, m', rc, dummy);
    LeftFilled(m', lc, t.left, dummy);
    RightFilled(m', rc, t.right, dummy);
  }

  /** SPLAY_ASSEMBLE */
  lemma AssembleHangs<K>(m: Cells<K>, m': Cells<K>, m'': Cells<K>, lc: Side<K>, t: Shape<K>, rc: Side<K>, dummy: Node<K>)
    requires t.Join? && Splits(m, t.node, lc, t, rc, dummy)
    requires EndsFilled(m, m', t.node, End(lc, dummy), End(rc, dummy))
    requires Same(m', m'', {t.node}) && m''[t.node] == Cell(m'[dummy].right, m'[dummy].left)
    ensures Hangs(m'', Assembled(lc, t, rc), t.node)
    ensures Distinct(Assembled(lc, t, rc))
    ensures Nodes(Assembled(lc, t, rc)) == SpineNodes(lc) + Nodes(t) + SpineNodes(rc)
  {
    FilledHang(m, m', lc, t, rc, dummy);
    AssembledNodes(lc, t, rc);
    HangsFrame(m', m'', LeftTree(lc, t.left), m'[dummy].right);
    HangsFrame(m', m'', RightTree(rc, t.right), m'[dummy].left);
  }
}
