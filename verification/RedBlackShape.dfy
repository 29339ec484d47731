/** The value a red-black tree stands for, apart from where its nodes live.

    A `Tree` is the shape hanging off one pointer; a `Context` is everything else, seen from the
    hole in which that shape hangs (a zipper). Every step of the pointer algorithms is a small
    local change of one context and one tree, so all facts about key order and about colours are
    proved here, once, on values. */
module RedBlackShape {
  import opened Sequences

  datatype Color = Red | Black

  datatype Tree<X> = Leaf | Fork(left: Tree<X>, node: X, color: Color, right: Tree<X>)

  /** `InLeft` says the hole is the left child of `node`, whose right child is `sibling`. */
  datatype Context<X> =
    | Top
    | InLeft(node: X, color: Color, sibling: Tree<X>, up: Context<X>)
    | InRight(sibling: Tree<X>, node: X, color: Color, up: Context<X>)

  function Plug<X>(c: Context<X>, t: Tree<X>): Tree<X>
    decreases c
  {
    match c
    case Top => t
    case InLeft(n, col, s, up) => Plug(up, Fork(t, n, col, s))
    case InRight(s, n, col, up) => Plug(up, Fork(s, n, col, t))
  }

  /** The subtree one level further up. */
  function Zoom<X>(c: Context<X>, t: Tree<X>): (z: Tree<X>)
    requires !c.Top?
    ensures Plug(c.up, z) == Plug(c, t)
  {
    match c
    case InLeft(n, col, s, _) => Fork(t, n, col, s)
    case InRight(s, n, col, _) => Fork(s, n, col, t)
  }

  /** The same tree seen from the hole's sibling. */
  function Flip<X>(c: Context<X>, t: Tree<X>): (d: Context<X>)
    requires !c.Top?
    ensures Plug(d, c.sibling) == Plug(c, t)
  {
    match c
    case InLeft(n, col, _, up) => InRight(t, n, col, up)
    case InRight(_, n, col, up) => InLeft(n, col, t, up)
  }

  function WithColor<X>(c: Context<X>, col: Color): (d: Context<X>)
    requires !c.Top?
  {
    match c
    case InLeft(n, _, s, up) => InLeft(n, col, s, up)
    case InRight(s, n, _, up) => InRight(s, n, col, up)
  }

  function WithSibling<X>(c: Context<X>, s: Tree<X>): (d: Context<X>)
    requires !c.Top?
  {
    match c
    case InLeft(n, col, _, up) => InLeft(n, col, s, up)
    case InRight(_, n, col, up) => InRight(s, n, col, up)
  }

  // ------------------------------------------------------------------ in-order sequence

  function Inorder<X>(t: Tree<X>): seq<X> {
    match t
    case Leaf => []
    case Fork(l, n, _, r) => Inorder(l) + [n] + Inorder(r)
  }

  function Before<X>(c: Context<X>): seq<X> {
    match c
    case Top => []
    case InLeft(_, _, _, up) => Before(up)
    case InRight(s, n, _, up) => Before(up) + Inorder(s) + [n]
  }

  function After<X>(c: Context<X>): seq<X> {
    match c
    case Top => []
    case InLeft(n, _, s, up) => [n] + Inorder(s) + After(up)
    case InRight(_, _, _, up) => After(up)
  }

  function Depth<X>(c: Context<X>): nat {
    if c.Top? then 0 else 1 + Depth(c.up)
  }

  lemma Regroup<X>(a: seq<X>, b: seq<X>, c: seq<X>, d: seq<X>, e: seq<X>)
    ensures a + (b + c + d) + e == a + b + (c + d + e)
    ensures a + (b + c + d) + e == (a + b + c) + d + e
  {
    assert a + (b + c + d) + e == a + b + c + d + e;
  }

  lemma Regroup4<X>(a: seq<X>, b: seq<X>, c: seq<X>, d: seq<X>)
    ensures a + (b + c) + d == (a + b) + (c + d)
  {
  }

  lemma RegroupLeft<X>(a: seq<X>, b: seq<X>, c: seq<X>, d: seq<X>)
    ensures a + b + ([] + c + d) == a + ([] + ([] + b + c) + d)
  {
  }

  lemma {:induction false} PlugInorder<X>(c: Context<X>, t: Tree<X>)
    ensures Inorder(Plug(c, t)) == Before(c) + Inorder(t) + After(c)
    decreases c
  {
    match c
    case Top =>
    case InLeft(n, col, s, up) =>
      PlugInorder(up, Fork(t, n, col, s));
      Regroup(Before(up), Inorder(t), [n], Inorder(s), After(up));
    case InRight(s, n, col, up) =>
      PlugInorder(up, Fork(s, n, col, t));
      Regroup(Before(up), Inorder(s), [n], Inorder(t), After(up));
  }

  lemma PlugSameInorder<X>(c: Context<X>, t: Tree<X>, u: Tree<X>)
    requires Inorder(t) == Inorder(u)
    ensures Inorder(Plug(c, t)) == Inorder(Plug(c, u))
  {
    PlugInorder(c, t);
    PlugInorder(c, u);
  }

  /** Everything left, respectively right, of the node in focus. */
  function LeftOf<X>(c: Context<X>, t: Tree<X>): seq<X>
    requires t.Fork?
  {
    Before(c) + Inorder(t.left)
  }

  function RightOf<X>(c: Context<X>, t: Tree<X>): seq<X>
    requires t.Fork?
  {
    Inorder(t.right) + After(c)
  }

  lemma FocusInorder<X>(c: Context<X>, t: Tree<X>)
    requires t.Fork?
    ensures Inorder(Plug(c, t)) == LeftOf(c, t) + [t.node] + RightOf(c, t)
  {
    PlugInorder(c, t);
    Regroup(Before(c), Inorder(t.left), [t.node], Inorder(t.right), After(c));
  }

  // ------------------------------------------------------------------ node sets

  ghost function Nodes<X>(t: Tree<X>): set<X> {
    match t
    case Leaf => {}
    case Fork(l, n, _, r) => Nodes(l) + {n} + Nodes(r)
  }

  ghost function ContextNodes<X>(c: Context<X>): set<X> {
    match c
    case Top => {}
    case InLeft(n, _, s, up) => ContextNodes(up) + {n} + Nodes(s)
    case InRight(s, n, _, up) => ContextNodes(up) + {n} + Nodes(s)
  }

  /** No node occurs twice. */
  ghost predicate Distinct<X>(t: Tree<X>) {
    match t
    case Leaf => true
    case Fork(l, n, _, r) =>
      && Distinct(l) && Distinct(r)
      && n !in Nodes(l) && n !in Nodes(r) && Nodes(l) !! Nodes(r)
  }

  ghost predicate ContextDistinct<X>(c: Context<X>) {
    match c
    case Top => true
    case InLeft(n, _, s, up) =>
      && ContextDistinct(up) && Distinct(s)
      && n !in ContextNodes(up) && n !in Nodes(s) && ContextNodes(up) !! Nodes(s)
    case InRight(s, n, _, up) =>
      && ContextDistinct(up) && Distinct(s)
      && n !in ContextNodes(up) && n !in Nodes(s) && ContextNodes(up) !! Nodes(s)
  }

  lemma {:induction false} PlugNodes<X>(c: Context<X>, t: Tree<X>)
    ensures Nodes(Plug(c, t)) == ContextNodes(c) + Nodes(t)
    ensures Distinct(Plug(c, t)) <==>
            Distinct(t) && ContextDistinct(c) && ContextNodes(c) !! Nodes(t)
    decreases c
  {
    match c
    case Top =>
    case InLeft(n, col, s, up) => PlugNodes(up, Fork(t, n, col, s));
    case InRight(s, n, col, up) => PlugNodes(up, Fork(s, n, col, t));
  }

  lemma {:induction false} InorderNodes<X>(t: Tree<X>)
    ensures Nodes(t) == SetOf(Inorder(t))
  {
    match t
    case Leaf =>
    case Fork(l, n, _, r) =>
      InorderNodes(l);
      InorderNodes(r);
      SetOfConcat(Inorder(l), [n]);
      SetOfConcat(Inorder(l) + [n], Inorder(r));
  }

  lemma {:induction false} ContextInorderNodes<X>(c: Context<X>)
    ensures ContextNodes(c) == SetOf(Before(c)) + SetOf(After(c))
    decreases c
  {
    match c
    case Top =>
    case InLeft(n, _, s, up) =>
      ContextInorderNodes(up);
      InorderNodes(s);
      SetOfConcat([n], Inorder(s));
      SetOfConcat([n] + Inorder(s), After(up));
    case InRight(s, n, _, up) =>
      ContextInorderNodes(up);
      InorderNodes(s);
      SetOfConcat(Before(up), Inorder(s));
      SetOfConcat(Before(up) + Inorder(s), [n]);
  }

  /** Dropping the node in focus from the in-order sequence drops just that node. */
  lemma RestNodes<X>(c: Context<X>, t: Tree<X>, w: Tree<X>)
    requires Distinct(Plug(c, t)) && t.Fork? && Inorder(w) == LeftOf(c, t) + RightOf(c, t)
    ensures Nodes(w) == Nodes(Plug(c, t)) - {t.node}
  {
    PlugNodes(c, t);
    InorderNodes(w);
    ContextInorderNodes(c);
    InorderNodes(t.left);
    InorderNodes(t.right);
    SetOfConcat(LeftOf(c, t), RightOf(c, t));
    SetOfConcat(Before(c), Inorder(t.left));
    SetOfConcat(Inorder(t.right), After(c));
  }

  lemma SameElements<X>(t: Tree<X>, u: Tree<X>)
    requires Inorder(t) == Inorder(u)
    ensures Nodes(t) == Nodes(u)
  {
    InorderNodes(t);
    InorderNodes(u);
  }

  // ------------------------------------------------------------------ local changes

  function Painted<X>(t: Tree<X>, col: Color): Tree<X>
    requires t.Fork?
  {
    t.(color := col)
  }

  function LeftRotated<X>(t: Tree<X>): Tree<X>
    requires t.Fork? && t.right.Fork?
  {
    var Fork(a, x, col, Fork(b, y, col', d)) := t;
    Fork(Fork(a, x, col, b), y, col', d)
  }

  function RightRotated<X>(t: Tree<X>): Tree<X>
    requires t.Fork? && t.left.Fork?
  {
    var Fork(Fork(a, x, col', b), y, col, d) := t;
    Fork(a, x, col', Fork(b, y, col, d))
  }

  lemma RotatedNodes<X>(t: Tree<X>)
    ensures t.Fork? && t.right.Fork? ==>
              Nodes(LeftRotated(t)) == Nodes(t) && (Distinct(LeftRotated(t)) <==> Distinct(t))
    ensures t.Fork? && t.left.Fork? ==>
              Nodes(RightRotated(t)) == Nodes(t) && (Distinct(RightRotated(t)) <==> Distinct(t))
  {
  }

  lemma RotatedInorder<X>(t: Tree<X>)
    ensures t.Fork? && t.right.Fork? ==> Inorder(LeftRotated(t)) == Inorder(t)
    ensures t.Fork? && t.left.Fork? ==> Inorder(RightRotated(t)) == Inorder(t)
  {
  }

  // ------------------------------------------------------------------ red-black conditions

  predicate IsRed<X>(t: Tree<X>) { t.Fork? && t.color.Red? }

  function Weight(c: Color): nat { if c.Black? then 1 else 0 }

  /** Black nodes on the leftmost path; `Balanced` makes it the same on every path. */
  function BlackHeight<X>(t: Tree<X>): nat {
    match t
    case Leaf => 0
    case Fork(l, _, col, _) => BlackHeight(l) + Weight(col)
  }

  predicate Balanced<X>(t: Tree<X>) {
    match t
    case Leaf => true
    case Fork(l, _, _, r) => Balanced(l) && Balanced(r) && BlackHeight(l) == BlackHeight(r)
  }

  predicate NoRedRed<X>(t: Tree<X>) {
    match t
    case Leaf => true
    case Fork(l, _, col, r) =>
      NoRedRed(l) && NoRedRed(r) && (col.Red? ==> !IsRed(l) && !IsRed(r))
  }

  /** The three conditions of the header comment, with the black root the code maintains. */
  predicate RedBlack<X>(t: Tree<X>) { Balanced(t) && NoRedRed(t) && !IsRed(t) }

  /** A hole of black height `h` would make every path of the whole tree agree. */
  predicate ContextBalanced<X>(c: Context<X>, h: nat) {
    match c
    case Top => true
    case InLeft(_, col, s, up) =>
      Balanced(s) && BlackHeight(s) == h && ContextBalanced(up, h + Weight(col))
    case InRight(s, _, col, up) =>
      Balanced(s) && BlackHeight(s) == h && ContextBalanced(up, h + Weight(col))
  }

  /** No red node of the context has a red parent or a red sibling of the hole, and its
      topmost node is black. */
  predicate ContextNoRedRed<X>(c: Context<X>) {
    match c
    case Top => true
    case InLeft(_, col, s, up) =>
      NoRedRed(s) && ContextNoRedRed(up) && (col.Red? ==> !IsRed(s) && !up.Top? && up.color.Black?)
    case InRight(s, _, col, up) =>
      NoRedRed(s) && ContextNoRedRed(up) && (col.Red? ==> !IsRed(s) && !up.Top? && up.color.Black?)
  }

  predicate HoleTakesRed<X>(c: Context<X>) { !c.Top? && c.color.Black? }

  lemma {:induction false} PlugBalanced<X>(c: Context<X>, t: Tree<X>)
    ensures Balanced(Plug(c, t)) <==> Balanced(t) && ContextBalanced(c, BlackHeight(t))
    decreases c
  {
    match c
    case Top =>
    case InLeft(n, col, s, up) => PlugBalanced(up, Fork(t, n, col, s));
    case InRight(s, n, col, up) => PlugBalanced(up, Fork(s, n, col, t));
  }

  lemma {:induction false} PlugNoRedRed<X>(c: Context<X>, t: Tree<X>)
    ensures NoRedRed(Plug(c, t)) && !IsRed(Plug(c, t)) <==>
            NoRedRed(t) && ContextNoRedRed(c) && (IsRed(t) ==> HoleTakesRed(c))
    decreases c
  {
    match c
    case Top =>
    case InLeft(n, col, s, up) => PlugNoRedRed(up, Fork(t, n, col, s));
    case InRight(s, n, col, up) => PlugNoRedRed(up, Fork(s, n, col, t));
  }

  /** A tree is red-black exactly when each part is, seen from any hole in it. */
  lemma PlugRedBlack<X>(c: Context<X>, t: Tree<X>)
    ensures RedBlack(Plug(c, t)) <==>
            && Balanced(t) && NoRedRed(t) && ContextBalanced(c, BlackHeight(t))
            && ContextNoRedRed(c) && (IsRed(t) ==> HoleTakesRed(c))
  {
    PlugBalanced(c, t);
    PlugNoRedRed(c, t);
  }

  // ------------------------------------------------------------------ insertion fix-up

  /** What the loop of RB_INSERT_COLOR keeps: the only possible defect is that the red node at
      the hole sits under a red parent, or is the root. */
  predicate InsertionDefect<X>(c: Context<X>, t: Tree<X>) {
    && IsRed(t) && Balanced(t) && NoRedRed(t)
    && ContextBalanced(c, BlackHeight(t)) && ContextNoRedRed(c)
  }

  predicate UnderRed<X>(c: Context<X>) { !c.Top? && c.color.Red? }

  /** Painting the root black ends the repair. */
  lemma InsertionDone<X>(c: Context<X>, t: Tree<X>)
    requires InsertionDefect(c, t) && !UnderRed(c)
    ensures var w := Plug(c, t); w.Fork? && RedBlack(Painted(w, Black))
    ensures Inorder(Painted(Plug(c, t), Black)) == Inorder(Plug(c, t))
  {
    PlugBalanced(c, t);
    if !c.Top? {
      PlugNoRedRed(c, t);
      PlugNodes(c, t);
    }
  }

  /** A red uncle: the grandparent takes the red and the parents' generation turns black. */
  function Recolored<X>(g: Tree<X>): Tree<X>
    requires g.Fork? && g.left.Fork? && g.right.Fork?
  {
    Fork(Painted(g.left, Black), g.node, Red, Painted(g.right, Black))
  }

  lemma RecoloredKeeps<X>(c: Context<X>, t: Tree<X>)
    requires InsertionDefect(c, t) && UnderRed(c)
    ensures !c.up.Top? && c.up.color.Black?
    ensures IsRed(c.up.sibling) ==>
              InsertionDefect(c.up.up, Recolored(Zoom(c.up, Zoom(c, t))))
    ensures IsRed(c.up.sibling) ==> var g := Zoom(c.up, Zoom(c, t)); Inorder(Recolored(g)) == Inorder(g)
  {
    assert ContextBalanced(c.up, BlackHeight(t)) && ContextNoRedRed(c.up);
  }

  /** A black uncle, on the side away from the node: one rotation at the grandparent. */
  lemma StraightKeeps<X>(c: Context<X>, t: Tree<X>)
    requires InsertionDefect(c, t) && UnderRed(c) && !IsRed(c.up.sibling)
    ensures c.InLeft? && c.up.InLeft? ==>
              InsertionDefect(InLeft(c.node, Black, Fork(c.sibling, c.up.node, Red, c.up.sibling), c.up.up), t)
    ensures c.InRight? && c.up.InRight? ==>
              InsertionDefect(InRight(Fork(c.up.sibling, c.up.node, Red, c.sibling), c.node, Black, c.up.up), t)
  {
    assert ContextBalanced(c.up, BlackHeight(t)) && ContextNoRedRed(c.up);
  }

  /** A node between its parent and grandparent: a rotation at the parent straightens it. */
  lemma BentKeeps<X>(c: Context<X>, t: Tree<X>)
    requires InsertionDefect(c, t) && UnderRed(c)
    ensures c.InRight? && c.up.InLeft? ==>
              InsertionDefect(InLeft(t.node, Red, t.right, c.up), Fork(c.sibling, c.node, Red, t.left))
    ensures c.InLeft? && c.up.InRight? ==>
              InsertionDefect(InRight(t.left, t.node, Red, c.up), Fork(t.right, c.node, Red, c.sibling))
  {
    assert ContextBalanced(c.up, BlackHeight(t)) && ContextNoRedRed(c.up);
  }

  // ------------------------------------------------------------------ removal fix-up

  function Blackened<X>(t: Tree<X>): Tree<X> {
    if t.Fork? then Painted(t, Black) else Leaf
  }

  /** What the loop of RB_REMOVE_COLOR keeps: the only defect is that every path through the hole
      is one black node short, save that the subtree's root may be red where it should not be. */
  predicate RemovalDefect<X>(c: Context<X>, t: Tree<X>) {
    && Balanced(t) && NoRedRed(Blackened(t))
    && ContextBalanced(c, BlackHeight(t) + 1) && ContextNoRedRed(c)
  }

  /** Painting the subtree's root black ends the repair, once it is red or the whole tree. */
  lemma RemovalDone<X>(c: Context<X>, t: Tree<X>)
    requires RemovalDefect(c, t) && (c.Top? || IsRed(t))
    ensures RedBlack(Plug(c, Blackened(t)))
    ensures Inorder(Plug(c, Blackened(t))) == Inorder(Plug(c, t))
  {
    PlugRedBlack(c, Blackened(t));
    PlugSameInorder(c, t, Blackened(t));
  }

  lemma RedBlackHasNoDefect<X>(w: Tree<X>)
    requires RedBlack(w)
    ensures RemovalDefect(Top, w)
  {
  }

  /** The sibling of a short hole exists, and so do the children of a red one. */
  lemma SiblingExists<X>(c: Context<X>, t: Tree<X>)
    requires RemovalDefect(c, t) && !c.Top?
    ensures c.sibling.Fork?
    ensures IsRed(c.sibling) ==>
              && c.color.Black? && c.sibling.left.Fork? && c.sibling.right.Fork?
              && c.sibling.left.color.Black? && c.sibling.right.color.Black?
  {
  }

  /** A red sibling is rotated above the parent: the hole sinks, under a red parent. */
  lemma SinkKeeps<X>(c: Context<X>, t: Tree<X>)
    requires RemovalDefect(c, t) && !c.Top? && IsRed(c.sibling)
    ensures var s := c.sibling;
      && (c.InLeft? ==> RemovalDefect(InLeft(c.node, Red, s.left, InLeft(s.node, Black, s.right, c.up)), t))
      && (c.InRight? ==> RemovalDefect(InRight(s.right, c.node, Red, InRight(s.left, s.node, Black, c.up)), t))
  {
    SiblingExists(c, t);
  }

  /** A black sibling with black children turns red: the parent's subtree is now the short one. */
  lemma LendKeeps<X>(c: Context<X>, t: Tree<X>)
    requires RemovalDefect(c, t) && !IsRed(t) && !c.Top? && c.sibling.Fork?
    requires !IsRed(c.sibling) && !IsRed(c.sibling.left) && !IsRed(c.sibling.right)
    ensures RemovalDefect(c.up, Zoom(WithSibling(c, Painted(c.sibling, Red)), t))
    ensures Inorder(Zoom(WithSibling(c, Painted(c.sibling, Red)), t)) == Inorder(Zoom(c, t))
  {
  }

  /** The sibling after its inner red child has been rotated above it. */
  function Outward<X>(c: Context<X>): Tree<X>
    requires !c.Top? && c.sibling.Fork?
    requires if c.InLeft? then c.sibling.left.Fork? else c.sibling.right.Fork?
  {
    var s := c.sibling;
    if c.InLeft? then
      Fork(s.left.left, s.left.node, Black, Fork(s.left.right, s.node, Red, s.right))
    else
      Fork(Fork(s.left, s.node, Red, s.right.left), s.right.node, Black, s.right.right)
  }

  lemma OutwardInorder<X>(c: Context<X>, t: Tree<X>)
    requires !c.Top? && c.sibling.Fork?
    requires if c.InLeft? then c.sibling.left.Fork? else c.sibling.right.Fork?
    ensures Inorder(Zoom(WithSibling(c, Outward(c)), t)) == Inorder(Zoom(c, t))
  {
    RotatedInorder(c.sibling);
    assert Inorder(Outward(c)) == Inorder(if c.InLeft? then RightRotated(c.sibling) else LeftRotated(c.sibling));
  }

  lemma OutwardKeeps<X>(c: Context<X>, t: Tree<X>)
    requires RemovalDefect(c, t) && !c.Top? && c.sibling.Fork? && !IsRed(c.sibling)
    requires if c.InLeft? then IsRed(c.sibling.left) && !IsRed(c.sibling.right)
                          else IsRed(c.sibling.right) && !IsRed(c.sibling.left)
    ensures RemovalDefect(WithSibling(c, Outward(c)), t)
  {
    var s, o := c.sibling, Outward(c);
    var inner := if c.InLeft? then s.left else s.right;
    assert Balanced(inner) && NoRedRed(inner);
    assert Balanced(if c.InLeft? then o.right else o.left) && NoRedRed(if c.InLeft? then o.right else o.left);
    assert Balanced(o) && NoRedRed(o) && BlackHeight(o) == BlackHeight(s);
  }

  /** The parent's subtree after the rotation that pays the missing black. */
  function Settled<X>(c: Context<X>, t: Tree<X>): Tree<X>
    requires !c.Top? && c.sibling.Fork?
  {
    var s := c.sibling;
    if c.InLeft? then
      Fork(Fork(t, c.node, Black, s.left), s.node, c.color, Blackened(s.right))
    else
      Fork(Blackened(s.left), s.node, c.color, Fork(s.right, c.node, Black, t))
  }

  lemma SettledInorder<X>(c: Context<X>, t: Tree<X>)
    requires !c.Top? && c.sibling.Fork?
    ensures Inorder(Plug(c.up, Settled(c, t))) == Inorder(Plug(c, t))
  {
    var z := Zoom(c, t);
    RotatedInorder(z);
    assert Inorder(Settled(c, t)) == Inorder(if c.InLeft? then LeftRotated(z) else RightRotated(z));
    PlugSameInorder(c.up, Settled(c, t), z);
  }

  lemma SettledKeeps<X>(c: Context<X>, t: Tree<X>)
    requires RemovalDefect(c, t) && !IsRed(t) && !c.Top? && c.sibling.Fork? && !IsRed(c.sibling)
    requires if c.InLeft? then IsRed(c.sibling.right) else IsRed(c.sibling.left)
    ensures RedBlack(Plug(c.up, Settled(c, t)))
  {
    var s, o := c.sibling, Settled(c, t);
    var outer := if c.InLeft? then s.right else s.left;
    assert Balanced(outer) && NoRedRed(outer);
    assert Balanced(Blackened(outer)) && NoRedRed(Blackened(outer));
    assert Balanced(if c.InLeft? then o.left else o.right) && NoRedRed(if c.InLeft? then o.left else o.right);
    assert Balanced(o) && NoRedRed(o);
    PlugRedBlack(c.up, o);
  }

  // ------------------------------------------------------------------ taking a node out

  function OnlyChild<X>(t: Tree<X>): Tree<X>
    requires t.Fork?
  {
    if t.left.Leaf? then t.right else t.left
  }

  lemma OnlyChildHeight<X>(t: Tree<X>)
    requires t.Fork? && (t.left.Leaf? || t.right.Leaf?) && Balanced(t) && NoRedRed(t)
    ensures Balanced(OnlyChild(t)) && NoRedRed(OnlyChild(t))
    ensures BlackHeight(OnlyChild(t)) + Weight(t.color) == BlackHeight(t)
    ensures t.color.Red? ==> OnlyChild(t).Leaf?
  {
  }

  /** Replacing a node with at most one child by that child. */
  lemma SpliceKeeps<X>(c: Context<X>, t: Tree<X>)
    requires RedBlack(Plug(c, t)) && t.Fork? && (t.left.Leaf? || t.right.Leaf?)
    ensures t.color.Black? ==> RemovalDefect(c, OnlyChild(t))
    ensures t.color.Red? ==> RedBlack(Plug(c, OnlyChild(t)))
  {
    PlugRedBlack(c, t);
    OnlyChildHeight(t);
    if t.color.Red? {
      PlugRedBlack(c, Leaf);
    } else {
      assert NoRedRed(Blackened(OnlyChild(t)));
    }
  }

  /** The context `inner`, with its own top placed in the hole of `outer`. */
  function Append<X>(inner: Context<X>, outer: Context<X>): Context<X> {
    match inner
    case Top => outer
    case InLeft(n, col, s, up) => InLeft(n, col, s, Append(up, outer))
    case InRight(s, n, col, up) => InRight(s, n, col, Append(up, outer))
  }

  lemma {:induction false} PlugAppend<X>(inner: Context<X>, outer: Context<X>, t: Tree<X>)
    ensures Plug(Append(inner, outer), t) == Plug(outer, Plug(inner, t))
    decreases inner
  {
    match inner
    case Top =>
    case InLeft(n, col, s, up) => PlugAppend(up, outer, Fork(t, n, col, s));
    case InRight(s, n, col, up) => PlugAppend(up, outer, Fork(s, n, col, t));
  }

  /** Colours and heights do not depend on which node carries them. */
  lemma {:induction false} RenameBalanced<X>(inner: Context<X>, l: Tree<X>, x: X, y: X, col: Color, c: Context<X>, h: nat)
    ensures ContextBalanced(Append(inner, InRight(l, x, col, c)), h) <==>
            ContextBalanced(Append(inner, InRight(l, y, col, c)), h)
  {
    match inner
    case Top =>
    case InLeft(_, color, _, up) => RenameBalanced(up, l, x, y, col, c, h + Weight(color));
    case InRight(_, _, color, up) => RenameBalanced(up, l, x, y, col, c, h + Weight(color));
  }

  lemma {:induction false} RenameNoRedRed<X>(inner: Context<X>, l: Tree<X>, x: X, y: X, col: Color, c: Context<X>)
    ensures var (a, b) := (Append(inner, InRight(l, x, col, c)), Append(inner, InRight(l, y, col, c)));
      && (ContextNoRedRed(a) <==> ContextNoRedRed(b)) && HoleTakesRed(a) == HoleTakesRed(b)
  {
    if inner.Top? {
    } else {
      RenameNoRedRed(inner.up, l, x, y, col, c);
    }
  }

  lemma RenameKeeps<X>(inner: Context<X>, l: Tree<X>, x: X, y: X, col: Color, c: Context<X>, t: Tree<X>)
    ensures var (a, b) := (Append(inner, InRight(l, x, col, c)), Append(inner, InRight(l, y, col, c)));
      && (RemovalDefect(a, t) ==> RemovalDefect(b, t)) && (RedBlack(Plug(a, t)) ==> RedBlack(Plug(b, t)))
  {
    var (a, b) := (Append(inner, InRight(l, x, col, c)), Append(inner, InRight(l, y, col, c)));
    RenameBalanced(inner, l, x, y, col, c, BlackHeight(t) + 1);
    RenameBalanced(inner, l, x, y, col, c, BlackHeight(t));
    RenameNoRedRed(inner, l, x, y, col, c);
    PlugRedBlack(a, t);
    PlugRedBlack(b, t);
  }

  lemma PlugForks<X>(c: Context<X>, t: Tree<X>)
    requires !c.Top?
    ensures Plug(c, t).Fork?
    decreases c
  {
    if c.up.Top? {
    } else {
      PlugForks(c.up, Zoom(c, t));
    }
  }

  lemma SplicedNodes<X>(c: Context<X>, t: Tree<X>)
    requires t.Fork? && Distinct(Plug(c, t))
    ensures t.node !in Nodes(Plug(c, t.left)) && t.node !in Nodes(Plug(c, t.right))
  {
    PlugNodes(c, t);
    PlugNodes(c, t.left);
    PlugNodes(c, t.right);
  }

  lemma SplicedInorder<X>(c: Context<X>, t: Tree<X>)
    requires t.Fork? && (t.left.Leaf? || t.right.Leaf?)
    ensures Inorder(Plug(c, OnlyChild(t))) == LeftOf(c, t) + RightOf(c, t)
  {
    PlugInorder(c, OnlyChild(t));
    if t.left.Leaf? {
      assert Before(c) + [] == Before(c);
      Regroup4(Before(c), [], Inorder(t.right), After(c));
    } else {
      assert [] + After(c) == After(c);
    }
  }

  /** With the leftmost node `s.node` of the right subtree moved into the place of `t.node`, exactly
      `t.node` has left the in-order sequence. */
  lemma SuccessorInorder<X>(c: Context<X>, t: Tree<X>, k: Context<X>, s: Tree<X>)
    requires t.Fork? && s.Fork? && s.left.Leaf? && Plug(k, s) == t.right && Before(k) == []
    ensures Inorder(Plug(c, Fork(t.left, s.node, t.color, Plug(k, s.right)))) == LeftOf(c, t) + RightOf(c, t)
  {
    PlugInorder(c, Fork(t.left, s.node, t.color, Plug(k, s.right)));
    PlugInorder(k, s.right);
    PlugInorder(k, s);
    RegroupLeft(Inorder(t.left), [s.node], Inorder(s.right), After(k));
    Regroup4(Before(c), Inorder(t.left), Inorder(t.right), After(c));
  }
}
