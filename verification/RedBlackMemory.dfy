/** How a shape lies in memory: intrusive nodes linked by left, right and parent pointers.

    A `Memory` is a snapshot of the fields of a set of nodes together with the root pointer. The
    lemmas say which shape a snapshot holds, and how the primitive pointer updates of the header
    (a colour assignment, a rotation, relinking one child) change that shape. */
module RedBlackMemory {
  import opened RedBlackShape

  /** An element with its embedded `RB_ENTRY`. */
  class Node<K> {
    var left: Node?<K>
    var right: Node?<K>
    var parent: Node?<K>
    var color: Color
    const key: K

    constructor (key: K)
      ensures this.key == key
    {
      this.key := key;
      left, right, parent, color := null, null, null, Red;
    }
  }

  type Shape<K> = Tree<Node<K>>
  type Hole<K> = Context<Node<K>>

  datatype Cell<K> = Cell(left: Node?<K>, right: Node?<K>, parent: Node?<K>, color: Color)
  type Cells<K> = map<Node<K>, Cell<K>>
  datatype Memory<K> = Memory(root: Node?<K>, cells: Cells<K>)

  // ------------------------------------------------------------------ what memory holds

  /** Shape `t` hangs at pointer `x`, with `p` as the parent pointer of its root. */
  ghost predicate Hangs<K>(m: Cells<K>, t: Shape<K>, x: Node?<K>, p: Node?<K>) {
    match t
    case Leaf => x == null
    case Fork(l, n, col, r) =>
      && x == n && n in m && m[n].parent == p && m[n].color == col
      && Hangs(m, l, m[n].left, n) && Hangs(m, r, m[n].right, n)
  }

  /** The pointer stored in the hole of `c`. */
  ghost function Slot<K>(h: Memory<K>, c: Hole<K>): Node?<K> {
    match c
    case Top => h.root
    case InLeft(n, _, _, _) => if n in h.cells then h.cells[n].left else null
    case InRight(_, n, _, _) => if n in h.cells then h.cells[n].right else null
  }

  ghost function RootOf<K>(t: Shape<K>): Node?<K> {
    if t.Fork? then t.node else null
  }

  ghost function Above<K>(c: Hole<K>): Node?<K> {
    if c.Top? then null else c.node
  }

  ghost predicate Surrounds<K>(h: Memory<K>, c: Hole<K>)
    decreases c
  {
    match c
    case Top => true
    case InLeft(n, col, s, up) =>
      && n in h.cells && Slot(h, up) == n && h.cells[n].parent == Above(up) && h.cells[n].color == col
      && Hangs(h.cells, s, h.cells[n].right, n) && Surrounds(h, up)
    case InRight(s, n, col, up) =>
      && n in h.cells && Slot(h, up) == n && h.cells[n].parent == Above(up) && h.cells[n].color == col
      && Hangs(h.cells, s, h.cells[n].left, n) && Surrounds(h, up)
  }

  ghost predicate Apart<K>(c: Hole<K>, t: Shape<K>) {
    Distinct(t) && ContextDistinct(c) && ContextNodes(c) !! Nodes(t)
  }

  /** Memory holds `t` at the hole of `c`. */
  ghost predicate At<K>(h: Memory<K>, c: Hole<K>, t: Shape<K>) {
    Surrounds(h, c) && Hangs(h.cells, t, Slot(h, c), Above(c)) && Apart(c, t)
  }

  /** Memory holds exactly the tree `t`. */
  ghost predicate Holds<K>(h: Memory<K>, t: Shape<K>) {
    Hangs(h.cells, t, h.root, null) && Distinct(t)
  }

  lemma {:induction false} PlugAt<K>(h: Memory<K>, c: Hole<K>, t: Shape<K>)
    ensures Holds(h, Plug(c, t)) <==> At(h, c, t)
    decreases c
  {
    match c
    case Top =>
    case InLeft(n, col, s, up) => PlugAt(h, up, Fork(t, n, col, s));
    case InRight(s, n, col, up) => PlugAt(h, up, Fork(s, n, col, t));
  }

  /** One level of a hanging shape, and of its distinctness. */
  lemma Open<K>(m: Cells<K>, t: Shape<K>, x: Node?<K>, p: Node?<K>)
    requires Hangs(m, t, x, p) && Distinct(t) && t.Fork?
    ensures x == t.node && x in m && m[x].parent == p && m[x].color == t.color
    ensures Hangs(m, t.left, m[x].left, x) && Hangs(m, t.right, m[x].right, x)
    ensures Distinct(t.left) && Distinct(t.right)
    ensures t.left.Fork? ==> t.left.node in m && m[x].left == t.left.node
    ensures t.right.Fork? ==> t.right.node in m && m[x].right == t.right.node
    ensures forall n :: n in Nodes(t.left) ==> n in Nodes(t) && n !in Nodes(t.right) && n != x
    ensures forall n :: n in Nodes(t.right) ==> n in Nodes(t) && n !in Nodes(t.left) && n != x
  {
  }

  lemma Rooted<K>(m: Cells<K>, t: Shape<K>, x: Node?<K>, p: Node?<K>)
    requires Hangs(m, t, x, p)
    ensures x != null ==> t.Fork? && x == t.node && x in Nodes(t) && x in m
    ensures x == null ==> t.Leaf?
  {
  }

  // ------------------------------------------------------------------ what updates leave alone

  lemma {:induction false} HangsFrame<K>(m: Cells<K>, m': Cells<K>, t: Shape<K>, x: Node?<K>, p: Node?<K>)
    requires Hangs(m, t, x, p)
    requires forall n :: n in Nodes(t) && n in m ==> n in m' && m[n] == m'[n]
    ensures Hangs(m', t, x, p)
  {
    match t
    case Leaf =>
    case Fork(l, n, _, r) =>
      HangsFrame(m, m', l, m[n].left, n);
      HangsFrame(m, m', r, m[n].right, n);
  }

  lemma HoldsFrame<K>(h: Memory<K>, h': Memory<K>, t: Shape<K>)
    requires Holds(h, t) && h'.root == h.root
    requires forall n :: n in Nodes(t) && n in h.cells ==> n in h'.cells && h.cells[n] == h'.cells[n]
    ensures Holds(h', t)
  {
    HangsFrame(h.cells, h'.cells, t, h.root, null);
  }

  lemma {:induction false} SurroundsFrame<K>(h: Memory<K>, h': Memory<K>, c: Hole<K>)
    requires Surrounds(h, c) && h.root == h'.root
    requires forall n :: n in ContextNodes(c) && n in h.cells ==> n in h'.cells && h.cells[n] == h'.cells[n]
    ensures Surrounds(h', c) && Slot(h', c) == Slot(h, c)
    decreases c
  {
    match c
    case Top =>
    case InLeft(n, _, s, up) =>
      HangsFrame(h.cells, h'.cells, s, h.cells[n].right, n);
      SurroundsFrame(h, h', up);
    case InRight(s, n, _, up) =>
      HangsFrame(h.cells, h'.cells, s, h.cells[n].left, n);
      SurroundsFrame(h, h', up);
  }

  /** A hanging shape survives giving its root a new parent. */
  lemma AdoptFrame<K>(m: Cells<K>, m': Cells<K>, t: Shape<K>, x: Node?<K>, p: Node?<K>, q: Node?<K>)
    requires Hangs(m, t, x, q) && Distinct(t)
    requires x != null && x in m ==> x in m' && m'[x] == m[x].(parent := p)
    requires forall n :: n in Nodes(t) && n in m && n != x ==> n in m' && m[n] == m'[n]
    ensures Hangs(m', t, x, p)
  {
    if t.Fork? {
      HangsFrame(m, m', t.left, m[x].left, x);
      HangsFrame(m, m', t.right, m[x].right, x);
    }
  }

  /** The cell of the node above the hole, after another pointer is stored in the hole. */
  ghost function Refilled<K>(c: Hole<K>, cell: Cell<K>, x: Node?<K>): Cell<K> {
    if c.InLeft? then cell.(left := x) else cell.(right := x)
  }

  /** The surroundings survive storing another pointer in the hole. */
  lemma RefillFrame<K>(h: Memory<K>, h': Memory<K>, c: Hole<K>, x: Node?<K>)
    requires Surrounds(h, c) && ContextDistinct(c)
    requires if c.Top? then h'.root == x else
               && h'.root == h.root && c.node in h'.cells
               && (c.node in h.cells ==> h'.cells[c.node] == Refilled(c, h.cells[c.node], x))
    requires forall n :: n in ContextNodes(c) && n in h.cells && n != Above(c) ==>
               n in h'.cells && h.cells[n] == h'.cells[n]
    ensures Surrounds(h', c) && Slot(h', c) == x
  {
    match c
    case Top =>
    case InLeft(n, _, s, up) =>
      HangsFrame(h.cells, h'.cells, s, h.cells[n].right, n);
      SurroundsFrame(h, h', up);
    case InRight(s, n, _, up) =>
      HangsFrame(h.cells, h'.cells, s, h.cells[n].left, n);
      SurroundsFrame(h, h', up);
  }

  // ------------------------------------------------------------------ painting

  ghost predicate PaintedAs<K>(h: Memory<K>, h': Memory<K>, x: Node<K>, col: Color) {
    && h'.root == h.root && h'.cells.Keys == h.cells.Keys && x in h.cells
    && h'.cells[x] == h.cells[x].(color := col)
    && forall n :: n in h.cells && n != x ==> h'.cells[n] == h.cells[n]
  }

  lemma PaintHolds<K>(h: Memory<K>, h': Memory<K>, c: Hole<K>, t: Shape<K>, col: Color)
    requires Holds(h, Plug(c, t)) && t.Fork? && PaintedAs(h, h', t.node, col)
    ensures Holds(h', Plug(c, Painted(t, col)))
  {
    PlugAt(h, c, t);
    Open(h.cells, t, t.node, Above(c));
    HangsFrame(h.cells, h'.cells, t.left, h.cells[t.node].left, t.node);
    HangsFrame(h.cells, h'.cells, t.right, h.cells[t.node].right, t.node);
    SurroundsFrame(h, h', c);
    PlugAt(h', c, Painted(t, col));
  }

  // ------------------------------------------------------------------ rotating

  /** The cell of parent `p`, after its child pointer to `from` was redirected to `to`. */
  ghost function Redirected<K>(cell: Cell<K>, from: Node<K>, to: Node?<K>): Cell<K> {
    if cell.left == from then cell.(left := to) else cell.(right := to)
  }

  /** The pointer effect of RB_ROTATE_LEFT at `elm`. */
  ghost predicate TurnedLeft<K>(h: Memory<K>, h': Memory<K>, elm: Node<K>, tmp: Node<K>, b: Node?<K>, p: Node?<K>) {
    && h'.cells.Keys == h.cells.Keys && elm in h.cells && tmp in h.cells
    && h.cells[elm].right == tmp && h.cells[tmp].left == b && h.cells[elm].parent == p
    && h'.cells[elm] == h.cells[elm].(right := b, parent := tmp)
    && h'.cells[tmp] == h.cells[tmp].(left := elm, parent := p)
    && (b != null ==> b in h.cells && h'.cells[b] == h.cells[b].(parent := elm))
    && (p == null ==> h'.root == tmp)
    && (p != null ==> h'.root == h.root && p in h.cells && h'.cells[p] == Redirected(h.cells[p], elm, tmp))
    && forall n :: n in h.cells && n != elm && n != tmp && n != b && n != p ==> h'.cells[n] == h.cells[n]
  }

  /** The pointer effect of RB_ROTATE_RIGHT at `elm`. */
  ghost predicate TurnedRight<K>(h: Memory<K>, h': Memory<K>, elm: Node<K>, tmp: Node<K>, b: Node?<K>, p: Node?<K>) {
    && h'.cells.Keys == h.cells.Keys && elm in h.cells && tmp in h.cells
    && h.cells[elm].left == tmp && h.cells[tmp].right == b && h.cells[elm].parent == p
    && h'.cells[elm] == h.cells[elm].(left := b, parent := tmp)
    && h'.cells[tmp] == h.cells[tmp].(right := elm, parent := p)
    && (b != null ==> b in h.cells && h'.cells[b] == h.cells[b].(parent := elm))
    && (p == null ==> h'.root == tmp)
    && (p != null ==> h'.root == h.root && p in h.cells && h'.cells[p] == Redirected(h.cells[p], elm, tmp))
    && forall n :: n in h.cells && n != elm && n != tmp && n != b && n != p ==> h'.cells[n] == h.cells[n]
  }

  /** Where the hole of `c` is the child pointer to `x` that redirection finds. */
  lemma RedirectRefills<K>(h: Memory<K>, c: Hole<K>, x: Node<K>, to: Node?<K>)
    requires Surrounds(h, c) && Slot(h, c) == x && ContextDistinct(c) && x !in ContextNodes(c)
    ensures !c.Top? ==> c.node in h.cells && c.node in ContextNodes(c)
    ensures !c.Top? ==> Redirected(h.cells[c.node], x, to) == Refilled(c, h.cells[c.node], to)
  {
    if c.InRight? {
      Rooted(h.cells, c.sibling, h.cells[c.node].left, c.node);
    }
  }

  lemma TurnedLeftInside<K>(h: Memory<K>, h': Memory<K>, t: Shape<K>, p: Node?<K>, b: Node?<K>)
    requires t.Fork? && t.right.Fork? && TurnedLeft(h, h', t.node, t.right.node, b, p)
    requires Hangs(h.cells, t, t.node, p) && Distinct(t) && p !in Nodes(t)
    ensures Hangs(h'.cells, LeftRotated(t), t.right.node, p)
  {
    var (elm, tmp) := (t.node, t.right.node);
    Open(h.cells, t, elm, p);
    Open(h.cells, t.right, tmp, elm);
    Rooted(h.cells, t.right.left, b, tmp);
    HangsFrame(h.cells, h'.cells, t.left, h.cells[elm].left, elm);
    HangsFrame(h.cells, h'.cells, t.right.right, h.cells[tmp].right, tmp);
    AdoptFrame(h.cells, h'.cells, t.right.left, b, elm, tmp);
    assert Hangs(h'.cells, LeftRotated(t).left, elm, tmp);
  }

  lemma TurnedLeftHolds<K>(h: Memory<K>, h': Memory<K>, c: Hole<K>, t: Shape<K>, b: Node?<K>, p: Node?<K>)
    requires Holds(h, Plug(c, t)) && t.Fork? && t.right.Fork?
    requires TurnedLeft(h, h', t.node, t.right.node, b, p)
    ensures Holds(h', Plug(c, LeftRotated(t)))
  {
    PlugAt(h, c, t);
    PlugAt(h', c, LeftRotated(t));
    RotatedNodes(t);
    Open(h.cells, t.right, t.right.node, t.node);
    Rooted(h.cells, t.right.left, b, t.right.node);
    TurnedLeftInside(h, h', t, p, b);
    RedirectRefills(h, c, t.node, t.right.node);
    RefillFrame(h, h', c, t.right.node);
  }

  lemma TurnedRightInside<K>(h: Memory<K>, h': Memory<K>, t: Shape<K>, p: Node?<K>, b: Node?<K>)
    requires t.Fork? && t.left.Fork? && TurnedRight(h, h', t.node, t.left.node, b, p)
    requires Hangs(h.cells, t, t.node, p) && Distinct(t) && p !in Nodes(t)
    ensures Hangs(h'.cells, RightRotated(t), t.left.node, p)
  {
    var (elm, tmp) := (t.node, t.left.node);
    Open(h.cells, t, elm, p);
    Open(h.cells, t.left, tmp, elm);
    Rooted(h.cells, t.left.right, b, tmp);
    HangsFrame(h.cells, h'.cells, t.right, h.cells[elm].right, elm);
    HangsFrame(h.cells, h'.cells, t.left.left, h.cells[tmp].left, tmp);
    AdoptFrame(h.cells, h'.cells, t.left.right, b, elm, tmp);
    assert Hangs(h'.cells, RightRotated(t).right, elm, tmp);
  }

  lemma TurnedRightHolds<K>(h: Memory<K>, h': Memory<K>, c: Hole<K>, t: Shape<K>, b: Node?<K>, p: Node?<K>)
    requires Holds(h, Plug(c, t)) && t.Fork? && t.left.Fork?
    requires TurnedRight(h, h', t.node, t.left.node, b, p)
    ensures Holds(h', Plug(c, RightRotated(t)))
  {
    PlugAt(h, c, t);
    PlugAt(h', c, RightRotated(t));
    RotatedNodes(t);
    Open(h.cells, t.left, t.left.node, t.node);
    Rooted(h.cells, t.left.right, b, t.left.node);
    TurnedRightInside(h, h', t, p, b);
    RedirectRefills(h, c, t.node, t.left.node);
    RefillFrame(h, h', c, t.left.node);
  }

  // ------------------------------------------------------------------ taking a node out

  /** The pointer effect of hanging `child` where `elm` hung, below `p`. */
  ghost predicate Spliced<K>(h: Memory<K>, h': Memory<K>, elm: Node<K>, child: Node?<K>, p: Node?<K>) {
    && h'.cells.Keys == h.cells.Keys
    && (child != null ==> child in h.cells && h'.cells[child] == h.cells[child].(parent := p))
    && (p == null ==> h'.root == child)
    && (p != null ==> h'.root == h.root && p in h.cells && h'.cells[p] == Redirected(h.cells[p], elm, child))
    && forall n :: n in h.cells && n != child && n != p ==> h'.cells[n] == h.cells[n]
  }

  lemma ChildApart<K>(c: Hole<K>, t: Shape<K>, child: Shape<K>)
    requires Apart(c, t) && t.Fork? && (child == t.left || child == t.right)
    ensures Apart(c, child) && t.node !in ContextNodes(c) && RootOf(child) !in ContextNodes(c)
    ensures Above(c) !in Nodes(child)
  {
  }

  lemma SplicedOutside<K>(h: Memory<K>, h': Memory<K>, c: Hole<K>, elm: Node<K>, child: Node?<K>)
    requires Surrounds(h, c) && ContextDistinct(c) && Slot(h, c) == elm
    requires elm !in ContextNodes(c) && child !in ContextNodes(c)
    requires Spliced(h, h', elm, child, Above(c))
    ensures Surrounds(h', c) && Slot(h', c) == child
  {
    RedirectRefills(h, c, elm, child);
    RefillFrame(h, h', c, child);
  }

  lemma ChildHangs<K>(m: Cells<K>, t: Shape<K>, child: Shape<K>, p: Node?<K>)
    requires t.Fork? && Hangs(m, t, t.node, p) && Distinct(t) && (child == t.left || child == t.right)
    ensures Hangs(m, child, RootOf(child), t.node) && Distinct(child)
  {
    Rooted(m, t.left, m[t.node].left, t.node);
    Rooted(m, t.right, m[t.node].right, t.node);
  }

  lemma SplicedInside<K>(h: Memory<K>, h': Memory<K>, elm: Node<K>, child: Shape<K>, p: Node?<K>)
    requires Hangs(h.cells, child, RootOf(child), elm) && Distinct(child) && p !in Nodes(child)
    requires Spliced(h, h', elm, RootOf(child), p)
    ensures Hangs(h'.cells, child, RootOf(child), p)
  {
    AdoptFrame(h.cells, h'.cells, child, RootOf(child), p, elm);
  }

  lemma SplicedHolds<K>(h: Memory<K>, h': Memory<K>, c: Hole<K>, t: Shape<K>, child: Shape<K>)
    requires Holds(h, Plug(c, t)) && t.Fork? && (child == t.left || child == t.right)
    requires Spliced(h, h', t.node, RootOf(child), Above(c))
    ensures Holds(h', Plug(c, child))
  {
    PlugAt(h, c, t);
    ChildApart(c, t, child);
    ChildHangs(h.cells, t, child, Above(c));
    SplicedOutside(h, h', c, t.node, RootOf(child));
    SplicedInside(h, h', t.node, child, Above(c));
    PlugAt(h', c, child);
  }

  /** The pointer effect of putting `elm` in the place of `gone`, which hung below `p`. */
  ghost predicate Replaced<K>(h: Memory<K>, h': Memory<K>, gone: Node<K>, elm: Node<K>, p: Node?<K>) {
    && h'.cells.Keys == h.cells.Keys && gone in h.cells && elm in h.cells
    && h.cells[gone].parent == p && h'.cells[elm] == h.cells[gone]
    && var (l, r) := (h.cells[gone].left, h.cells[gone].right);
    && (l != null ==> l in h.cells && h'.cells[l] == h.cells[l].(parent := elm))
    && (r != null ==> r in h.cells && h'.cells[r] == h.cells[r].(parent := elm))
    && (p == null ==> h'.root == elm)
    && (p != null ==> h'.root == h.root && p in h.cells && h'.cells[p] == Redirected(h.cells[p], gone, elm))
    && forall n :: n in h.cells && n != elm && n != l && n != r && n != p ==> h'.cells[n] == h.cells[n]
  }

  lemma ReplacedHolds<K>(h: Memory<K>, h': Memory<K>, c: Hole<K>, t: Shape<K>, elm: Node<K>)
    requires Holds(h, Plug(c, t)) && t.Fork? && elm !in Nodes(t) && elm !in ContextNodes(c)
    requires Replaced(h, h', t.node, elm, Above(c))
    ensures Holds(h', Plug(c, t.(node := elm)))
  {
    PlugAt(h, c, t);
    PlugAt(h', c, t.(node := elm));
    Open(h.cells, t, t.node, Above(c));
    RedirectRefills(h, c, t.node, elm);
    RefillFrame(h, h', c, elm);
    Rooted(h.cells, t.left, h.cells[t.node].left, t.node);
    Rooted(h.cells, t.right, h.cells[t.node].right, t.node);
    AdoptFrame(h.cells, h'.cells, t.left, RootOf(t.left), elm, t.node);
    AdoptFrame(h.cells, h'.cells, t.right, RootOf(t.right), elm, t.node);
  }

  // ------------------------------------------------------------------ putting a node in

  /** The pointer effect of storing a fresh red node in the empty hole of `c`. */
  ghost predicate Attached<K>(h: Memory<K>, h': Memory<K>, c: Hole<K>, elm: Node<K>) {
    && elm !in h.cells && h'.cells.Keys == h.cells.Keys + {elm}
    && h'.cells[elm] == Cell(null, null, Above(c), Red)
    && (if c.Top? then h'.root == elm else
          h'.root == h.root && c.node in h.cells && h'.cells[c.node] == Refilled(c, h.cells[c.node], elm))
    && forall n :: n in h.cells && n != Above(c) ==> h'.cells[n] == h.cells[n]
  }

  lemma {:induction false} HangingNodes<K>(m: Cells<K>, t: Shape<K>, x: Node?<K>, p: Node?<K>)
    requires Hangs(m, t, x, p)
    ensures Nodes(t) <= m.Keys
  {
    if t.Leaf? {
    } else {
      HangingNodes(m, t.left, m[x].left, x);
      HangingNodes(m, t.right, m[x].right, x);
    }
  }

  lemma AttachedHolds<K>(h: Memory<K>, h': Memory<K>, c: Hole<K>, elm: Node<K>)
    requires Holds(h, Plug(c, Leaf)) && Attached(h, h', c, elm)
    ensures Holds(h', Plug(c, Fork(Leaf, elm, Red, Leaf)))
  {
    PlugAt(h, c, Leaf);
    PlugNodes(c, Leaf);
    HangingNodes(h.cells, Plug(c, Leaf), h.root, null);
    RefillFrame(h, h', c, elm);
    assert Hangs(h'.cells, Fork(Leaf, elm, Red, Leaf), elm, Above(c));
    PlugAt(h', c, Fork(Leaf, elm, Red, Leaf));
  }
}
