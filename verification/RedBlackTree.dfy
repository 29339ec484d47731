/** The red-black tree of the header: `rbh_root` and the operations generated by RB_GENERATE. */
module RedBlackTree {
  import opened Ordering
  import opened Sequences
  import opened RedBlackShape
  import opened RedBlackMemory
  import opened RedBlackSearch

  class RBTree<K(!new)> {
    const cmp: (K, K) -> int
    var root: Node?<K>
    /** The nodes whose fields the tree may use. */
    ghost var pool: set<Node<K>>
    /** Between operations, the tree that the fields form. */
    ghost var shape: Shape<K>

    ghost function Snapshot(): Memory<K>
      reads `root, `pool, pool
    {
      Memory(root, map n | n in pool :: Cell(n.left, n.right, n.parent, n.color))
    }

    /** The fields reachable from `root` form exactly the tree `t`. */
    ghost predicate Is(t: Shape<K>)
      reads `root, `pool, pool
    {
      Holds(Snapshot(), t)
    }

    /** Reads off the fields around a node in focus. */
    lemma Look(c: Hole<K>, t: Shape<K>)
      requires Is(Plug(c, t)) && t.Fork?
      ensures t.node in pool && t.node.parent == Above(c) && t.node.color == t.color
      ensures t.node.left == RootOf(t.left)
      ensures t.node.right == RootOf(t.right)
      ensures t.left.Fork? && t.right.Fork? ==> t.left.node != t.right.node
      ensures c.Top? <==> root == t.node
    {
      var h := Snapshot();
      PlugAt(h, c, t);
      Open(h.cells, t, t.node, Above(c));
      Rooted(h.cells, t.left, t.node.left, t.node);
      Rooted(h.cells, t.right, t.node.right, t.node);
    }

    /** Reads off the colours of the children of a node in focus. */
    lemma LookAt(c: Hole<K>, t: Shape<K>)
      requires Is(Plug(c, t)) && t.Fork?
      ensures t.left.Fork? ==> t.left.node in pool && t.left.node.color == t.left.color
      ensures t.right.Fork? ==> t.right.node in pool && t.right.node.color == t.right.color
    {
      if t.left.Fork? { Look(InLeft(t.node, t.color, t.right, c), t.left); }
      if t.right.Fork? { Look(InRight(t.left, t.node, t.color, c), t.right); }
    }

    /** Reads off the fields of the node above a hole, and of the hole's sibling. */
    lemma LookUp(c: Hole<K>, t: Shape<K>)
      requires Is(Plug(c, t)) && !c.Top?
      ensures c.node in pool && c.node.parent == Above(c.up) && c.node.color == c.color
      ensures c.node.left == RootOf(if c.InLeft? then t else c.sibling)
      ensures c.node.right == RootOf(if c.InLeft? then c.sibling else t)
      ensures t.Fork? ==> t.node in pool && t.node.color == t.color && t.node.parent == c.node && t.node != RootOf(c.sibling)
      ensures c.sibling.Fork? ==> c.sibling.node in pool && c.sibling.node.color == c.sibling.color
      ensures c.up.Top? <==> root == c.node
    {
      Look(c.up, Zoom(c, t));
      if t.Fork? { Look(c, t); }
      if c.sibling.Fork? { Look(Flip(c, t), c.sibling); }
    }

    // ---------------------------------------------------------------- primitive updates

    /** An assignment to RB_COLOR(x). */
    method SetColor(x: Node<K>, col: Color, ghost c: Hole<K>, ghost t: Shape<K>)
      requires Is(Plug(c, t)) && t.Fork? && t.node == x
      modifies x`color
      ensures Is(Plug(c, Painted(t, col)))
    {
      Look(c, t);
      x.color := col;
      PaintHolds(old(Snapshot()), Snapshot(), c, t, col);
    }

    /** RB_ROTATE_LEFT: the pointer assignments. */
    method TurnLeft(elm: Node<K>) returns (tmp: Node<K>)
      requires elm in pool && elm.right != null && elm.right in pool && elm.right != elm
      requires var b := elm.right.left; b == null || (b in pool && b != elm && b != elm.right)
      requires var p := elm.parent; p == null || (p in pool && p != elm && p != elm.right && p != elm.right.left)
      modifies `root, pool
      ensures tmp == old(elm.right)
      ensures TurnedLeft(old(Snapshot()), Snapshot(), elm, tmp, old(elm.right.left), old(elm.parent))
    {
      tmp := elm.right;
      elm.right := tmp.left;
      if elm.right != null {
        tmp.left.parent := elm;
      }
      tmp.parent := elm.parent;
      if tmp.parent != null {
        if elm == elm.parent.left {
          elm.parent.left := tmp;
        } else {
          elm.parent.right := tmp;
        }
      } else {
        root := tmp;
      }
      tmp.left := elm;
      elm.parent := tmp;
    }

    /** RB_ROTATE_RIGHT: the pointer assignments. */
    method TurnRight(elm: Node<K>) returns (tmp: Node<K>)
      requires elm in pool && elm.left != null && elm.left in pool && elm.left != elm
      requires var b := elm.left.right; b == null || (b in pool && b != elm && b != elm.left)
      requires var p := elm.parent; p == null || (p in pool && p != elm && p != elm.left && p != elm.left.right)
      modifies `root, pool
      ensures tmp == old(elm.left)
      ensures TurnedRight(old(Snapshot()), Snapshot(), elm, tmp, old(elm.left.right), old(elm.parent))
    {
      tmp := elm.left;
      elm.left := tmp.right;
      if elm.left != null {
        tmp.right.parent := elm;
      }
      tmp.parent := elm.parent;
      if tmp.parent != null {
        if elm == elm.parent.left {
          elm.parent.left := tmp;
        } else {
          elm.parent.right := tmp;
        }
      } else {
        root := tmp;
      }
      tmp.right := elm;
      elm.parent := tmp;
    }

    /** RB_ROTATE_LEFT: its effect on the tree. */
    method RotateLeft(elm: Node<K>, ghost c: Hole<K>, ghost t: Shape<K>) returns (tmp: Node<K>)
      requires Is(Plug(c, t)) && t.Fork? && t.node == elm && t.right.Fork?
      modifies `root, pool
      ensures tmp == t.right.node
      ensures Is(Plug(c, LeftRotated(t)))
    {
      ghost var h := Snapshot();
      PlugAt(h, c, t);
      Open(h.cells, t, elm, Above(c));
      Open(h.cells, t.right, elm.right, elm);
      Rooted(h.cells, t.right.left, elm.right.left, elm.right);
      RedirectRefills(h, c, elm, null);
      tmp := TurnLeft(elm);
      TurnedLeftHolds(h, Snapshot(), c, t, old(elm.right.left), old(elm.parent));
    }

    /** RB_ROTATE_RIGHT: its effect on the tree. */
    method RotateRight(elm: Node<K>, ghost c: Hole<K>, ghost t: Shape<K>) returns (tmp: Node<K>)
      requires Is(Plug(c, t)) && t.Fork? && t.node == elm && t.left.Fork?
      modifies `root, pool
      ensures tmp == t.left.node
      ensures Is(Plug(c, RightRotated(t)))
    {
      ghost var h := Snapshot();
      PlugAt(h, c, t);
      Open(h.cells, t, elm, Above(c));
      Open(h.cells, t.left, elm.left, elm);
      Rooted(h.cells, t.left.right, elm.left.right, elm.left);
      RedirectRefills(h, c, elm, null);
      tmp := TurnRight(elm);
      TurnedRightHolds(h, Snapshot(), c, t, old(elm.left.right), old(elm.parent));
    }

    // ---------------------------------------------------------------- insertion fix-up

    /** RB_SET_BLACKRED for the node at the hole of `c` and the node above it. */
    method SetBlackRed(black: Node<K>, red: Node<K>, ghost c: Hole<K>, ghost t: Shape<K>)
      requires Is(Plug(c, t)) && t.Fork? && t.node == black && !c.Top? && c.node == red
      modifies pool
      ensures Is(Plug(WithColor(c, Red), Painted(t, Black)))
    {
      Look(c, t);
      Look(c.up, Zoom(c, t));
      SetColor(black, Black, c, t);
      SetColor(red, Red, c.up, Zoom(c, Painted(t, Black)));
    }

    /** The loop body of RB_INSERT_COLOR when the parent is a left child and the uncle is black. */
    method RotateAboveLeft(elm: Node<K>, parent: Node<K>, gparent: Node<K>, ghost c: Hole<K>, ghost t: Shape<K>)
        returns (next: Node<K>, ghost d: Hole<K>, ghost u: Shape<K>)
      requires Is(Plug(c, t)) && InsertionDefect(c, t) && t.node == elm
      requires UnderRed(c) && c.node == parent && c.up.InLeft? && c.up.node == gparent && !IsRed(c.up.sibling)
      modifies `root, pool
      ensures Is(Plug(d, u)) && InsertionDefect(d, u) && u.node == next && Depth(d) < Depth(c)
      ensures Inorder(Plug(d, u)) == Inorder(Plug(c, t))
    {
      var parent' := parent;
      next, d, u := elm, c, t;
      Look(c.up, Zoom(c, t));
      if parent.right == elm {
        var tmp := RotateLeft(parent, c.up, Zoom(c, t));
        BentKeeps(c, t);
        RotatedInorder(Zoom(c, t));
        PlugSameInorder(c.up, Zoom(c, t), LeftRotated(Zoom(c, t)));
        d, u := InLeft(t.node, Red, t.right, c.up), Fork(c.sibling, c.node, Red, t.left);
        tmp := parent';
        parent' := elm;
        next := tmp;
      }
      ghost var top, p := c.up.up, Zoom(d, u);
      ghost var g := Fork(Painted(p, Black), gparent, Red, c.up.sibling);
      StraightKeeps(d, u);
      SetBlackRed(parent', gparent, c.up, p);
      var tmp := RotateRight(gparent, top, g);
      RotatedInorder(g);
      PlugSameInorder(top, Fork(p, gparent, Black, c.up.sibling), RightRotated(g));
      d := InLeft(parent', Black, Fork(d.sibling, gparent, Red, c.up.sibling), top);
    }

    method RotateAboveRight(elm: Node<K>, parent: Node<K>, gparent: Node<K>, ghost c: Hole<K>, ghost t: Shape<K>)
        returns (next: Node<K>, ghost d: Hole<K>, ghost u: Shape<K>)
      requires Is(Plug(c, t)) && InsertionDefect(c, t) && t.node == elm
      requires UnderRed(c) && c.node == parent && c.up.InRight? && c.up.node == gparent && !IsRed(c.up.sibling)
      modifies `root, pool
      ensures Is(Plug(d, u)) && InsertionDefect(d, u) && u.node == next && Depth(d) < Depth(c)
      ensures Inorder(Plug(d, u)) == Inorder(Plug(c, t))
    {
      var parent' := parent;
      next, d, u := elm, c, t;
      Look(c.up, Zoom(c, t));
      if parent.left == elm {
        var tmp := RotateRight(parent, c.up, Zoom(c, t));
        BentKeeps(c, t);
        RotatedInorder(Zoom(c, t));
        PlugSameInorder(c.up, Zoom(c, t), RightRotated(Zoom(c, t)));
        d, u := InRight(t.left, t.node, Red, c.up), Fork(t.right, c.node, Red, c.sibling);
        tmp := parent';
        parent' := elm;
        next := tmp;
      }
      ghost var top, p := c.up.up, Zoom(d, u);
      ghost var g := Fork(c.up.sibling, gparent, Red, Painted(p, Black));
      StraightKeeps(d, u);
      SetBlackRed(parent', gparent, c.up, p);
      var tmp := RotateLeft(gparent, top, g);
      RotatedInorder(g);
      PlugSameInorder(top, Fork(c.up.sibling, gparent, Black, p), LeftRotated(g));
      d := InRight(Fork(c.up.sibling, gparent, Red, d.sibling), parent', Black, top);
    }

    /** The loop body of RB_INSERT_COLOR when the uncle `tmp` is red. */
    method Recolor(tmp: Node<K>, parent: Node<K>, gparent: Node<K>, ghost c: Hole<K>, ghost t: Shape<K>)
      requires Is(Plug(c, t)) && InsertionDefect(c, t) && UnderRed(c)
      requires c.node == parent && !c.up.Top? && c.up.node == gparent && IsRed(c.up.sibling) && c.up.sibling.node == tmp
      modifies pool
      ensures Is(Plug(c.up.up, Recolored(Zoom(c.up, Zoom(c, t)))))
    {
      RecoloredKeeps(c, t);
      ghost var p, s := Zoom(c, t), c.up.sibling;
      Look(Flip(c.up, p), s);
      SetColor(tmp, Black, Flip(c.up, p), s);
      SetBlackRed(parent, gparent, WithSibling(c.up, Painted(s, Black)), p);
    }

    /** The loop body of RB_INSERT_COLOR when the parent is a left child. */
    method RepairLeft(elm: Node<K>, parent: Node<K>, gparent: Node<K>, ghost c: Hole<K>, ghost t: Shape<K>)
        returns (next: Node<K>, ghost d: Hole<K>, ghost u: Shape<K>)
      requires Is(Plug(c, t)) && InsertionDefect(c, t) && t.node == elm
      requires UnderRed(c) && c.node == parent && c.up.InLeft? && c.up.node == gparent
      modifies `root, pool
      ensures Is(Plug(d, u)) && InsertionDefect(d, u) && u.node == next && Depth(d) < Depth(c)
      ensures Inorder(Plug(d, u)) == Inorder(Plug(c, t))
    {
      LookUp(c.up, Zoom(c, t));
      var tmp := gparent.right;
      if tmp != null && tmp.color == Red {
        ghost var g := Zoom(c.up, Zoom(c, t));
        RecoloredKeeps(c, t);
        PlugSameInorder(c.up.up, g, Recolored(g));
        Recolor(tmp, parent, gparent, c, t);
        next, d, u := gparent, c.up.up, Recolored(g);
      } else {
        next, d, u := RotateAboveLeft(elm, parent, gparent, c, t);
      }
    }

    /** The loop body of RB_INSERT_COLOR when the parent is a right child. */
    method RepairRight(elm: Node<K>, parent: Node<K>, gparent: Node<K>, ghost c: Hole<K>, ghost t: Shape<K>)
        returns (next: Node<K>, ghost d: Hole<K>, ghost u: Shape<K>)
      requires Is(Plug(c, t)) && InsertionDefect(c, t) && t.node == elm
      requires UnderRed(c) && c.node == parent && c.up.InRight? && c.up.node == gparent
      modifies `root, pool
      ensures Is(Plug(d, u)) && InsertionDefect(d, u) && u.node == next && Depth(d) < Depth(c)
      ensures Inorder(Plug(d, u)) == Inorder(Plug(c, t))
    {
      LookUp(c.up, Zoom(c, t));
      var tmp := gparent.left;
      if tmp != null && tmp.color == Red {
        ghost var g := Zoom(c.up, Zoom(c, t));
        RecoloredKeeps(c, t);
        PlugSameInorder(c.up.up, g, Recolored(g));
        Recolor(tmp, parent, gparent, c, t);
        next, d, u := gparent, c.up.up, Recolored(g);
      } else {
        next, d, u := RotateAboveRight(elm, parent, gparent, c, t);
      }
    }

    /** RB_INSERT_COLOR, started at a red node that may sit under a red parent. */
    method InsertColor(x: Node<K>, ghost cx: Hole<K>, ghost tx: Shape<K>) returns (ghost w: Shape<K>)
      requires Is(Plug(cx, tx)) && InsertionDefect(cx, tx) && tx.node == x
      modifies `root, pool
      ensures Is(w) && RedBlack(w) && Inorder(w) == Inorder(Plug(cx, tx))
    {
      var elm := x;
      ghost var c, t := cx, tx;
      Look(c, t);
      if !c.Top? { LookUp(c, t); }
      while elm.parent != null && elm.parent.color == Red
        invariant Is(Plug(c, t)) && InsertionDefect(c, t) && t.node == elm
        invariant elm.parent == Above(c) && (!c.Top? ==> c.node.color == c.color)
        invariant Inorder(Plug(c, t)) == Inorder(Plug(cx, tx))
        decreases Depth(c)
      {
        var parent := elm.parent;
        var gparent := parent.parent;
        RecoloredKeeps(c, t);
        LookUp(c, t);
        LookUp(c.up, Zoom(c, t));
        if parent == gparent.left {
          elm, c, t := RepairLeft(elm, parent, gparent, c, t);
        } else {
          elm, c, t := RepairRight(elm, parent, gparent, c, t);
        }
        Look(c, t);
        if !c.Top? { LookUp(c, t); }
      }
      InsertionDone(c, t);
      Look(Top, Plug(c, t));
      SetColor(root, Black, Top, Plug(c, t));
      w := Painted(Plug(c, t), Black);
    }

    // ---------------------------------------------------------------- removal fix-up

    /** RB_REMOVE_COLOR, hole on the left: a red sibling is rotated above the parent. */
    method SinkLeft(parent: Node<K>, sibling: Node<K>, ghost c: Hole<K>, ghost t: Shape<K>)
        returns (tmp: Node<K>, ghost d: Hole<K>)
      requires Is(Plug(c, t)) && RemovalDefect(c, t) && c.InLeft? && c.node == parent
      requires IsRed(c.sibling) && c.sibling.node == sibling
      modifies `root, pool
      ensures d.InLeft? && d.node == parent && d.color.Red? && d.sibling.Fork? && d.sibling.node == tmp
      ensures !IsRed(d.sibling) && Depth(d) == Depth(c) + 1
      ensures Is(Plug(d, t)) && RemovalDefect(d, t) && Inorder(Plug(d, t)) == Inorder(Plug(c, t))
    {
      ghost var s := c.sibling;
      SiblingExists(c, t);
      SinkKeeps(c, t);
      LookUp(c, t);
      SetBlackRed(sibling, parent, Flip(c, t), s);
      ghost var z := Fork(t, parent, Red, Painted(s, Black));
      tmp := RotateLeft(parent, c.up, z);
      RotatedInorder(z);
      PlugSameInorder(c.up, Zoom(c, t), LeftRotated(z));
      d := InLeft(parent, Red, s.left, InLeft(s.node, Black, s.right, c.up));
      LookUp(d, t);
      tmp := parent.right;
    }

    /** RB_REMOVE_COLOR, hole on the left: the sibling's red left child is rotated above it. */
    method UnbendLeft(parent: Node<K>, sibling: Node<K>, ghost c: Hole<K>, ghost t: Shape<K>)
        returns (tmp: Node<K>, ghost d: Hole<K>)
      requires Is(Plug(c, t)) && RemovalDefect(c, t) && c.InLeft? && c.node == parent
      requires c.sibling.Fork? && c.sibling.node == sibling && !IsRed(c.sibling)
      requires IsRed(c.sibling.left) && !IsRed(c.sibling.right)
      modifies `root, pool
      ensures d == WithSibling(c, Outward(c)) && d.sibling.node == tmp
      ensures Is(Plug(d, t)) && RemovalDefect(d, t) && Inorder(Plug(d, t)) == Inorder(Plug(c, t))
    {
      ghost var s := c.sibling;
      OutwardKeeps(c, t);
      OutwardInorder(c, t);
      LookUp(Flip(c, t), s);
      Look(Flip(c, t), s);
      ghost var below := InLeft(s.node, s.color, s.right, Flip(c, t));
      Look(below, s.left);
      var oleft := sibling.left;
      if oleft != null {
        SetColor(oleft, Black, below, s.left);
      }
      ghost var s' := Fork(Painted(s.left, Black), s.node, Black, s.right);
      SetColor(sibling, Red, Flip(c, t), s');
      tmp := RotateRight(sibling, Flip(c, t), Painted(s', Red));
      d := WithSibling(c, Outward(c));
      PlugSameInorder(c.up, Zoom(c, t), Zoom(d, t));
      LookUp(d, t);
      tmp := parent.right;
    }

    /** RB_REMOVE_COLOR, hole on the left: the last rotation, which pays the missing black. */
    method SettleLeft(parent: Node<K>, tmp: Node<K>, ghost c: Hole<K>, ghost t: Shape<K>)
      requires Is(Plug(c, t)) && RemovalDefect(c, t) && !IsRed(t) && c.InLeft? && c.node == parent
      requires c.sibling.Fork? && c.sibling.node == tmp && !IsRed(c.sibling) && IsRed(c.sibling.right)
      modifies `root, pool
      ensures Is(Plug(c.up, Settled(c, t)))
    {
      ghost var s := c.sibling;
      LookUp(c, t);
      SetColor(tmp, parent.color, Flip(c, t), s);
      ghost var s1 := Painted(s, c.color);
      SetColor(parent, Black, c.up, Fork(t, parent, c.color, s1));
      ghost var f := Flip(WithColor(c, Black), t);
      Look(f, s1);
      ghost var below := InRight(s1.left, s1.node, s1.color, f);
      Look(below, s1.right);
      if tmp.right != null {
        SetColor(tmp.right, Black, below, s1.right);
      }
      ghost var z := Fork(t, parent, Black, Fork(s1.left, s1.node, s1.color, Blackened(s1.right)));
      assert Plug(below, Painted(s1.right, Black)) == Plug(f, z.right);
      var _ := RotateLeft(parent, c.up, z);
    }

    /** RB_REMOVE_COLOR, hole on the right: a red sibling is rotated above the parent. */
    method SinkRight(parent: Node<K>, sibling: Node<K>, ghost c: Hole<K>, ghost t: Shape<K>)
        returns (tmp: Node<K>, ghost d: Hole<K>)
      requires Is(Plug(c, t)) && RemovalDefect(c, t) && c.InRight? && c.node == parent
      requires IsRed(c.sibling) && c.sibling.node == sibling
      modifies `root, pool
      ensures d.InRight? && d.node == parent && d.color.Red? && d.sibling.Fork? && d.sibling.node == tmp
      ensures !IsRed(d.sibling) && Depth(d) == Depth(c) + 1
      ensures Is(Plug(d, t)) && RemovalDefect(d, t) && Inorder(Plug(d, t)) == Inorder(Plug(c, t))
    {
      ghost var s := c.sibling;
      SiblingExists(c, t);
      SinkKeeps(c, t);
      LookUp(c, t);
      SetBlackRed(sibling, parent, Flip(c, t), s);
      ghost var z := Fork(Painted(s, Black), parent, Red, t);
      tmp := RotateRight(parent, c.up, z);
      RotatedInorder(z);
      PlugSameInorder(c.up, Zoom(c, t), RightRotated(z));
      d := InRight(s.right, parent, Red, InRight(s.left, s.node, Black, c.up));
      LookUp(d, t);
      tmp := parent.left;
    }

    /** RB_REMOVE_COLOR, hole on the right: the sibling's red right child is rotated above it. */
    method UnbendRight(parent: Node<K>, sibling: Node<K>, ghost c: Hole<K>, ghost t: Shape<K>)
        returns (tmp: Node<K>, ghost d: Hole<K>)
      requires Is(Plug(c, t)) && RemovalDefect(c, t) && c.InRight? && c.node == parent
      requires c.sibling.Fork? && c.sibling.node == sibling && !IsRed(c.sibling)
      requires IsRed(c.sibling.right) && !IsRed(c.sibling.left)
      modifies `root, pool
      ensures d == WithSibling(c, Outward(c)) && d.sibling.node == tmp
      ensures Is(Plug(d, t)) && RemovalDefect(d, t) && Inorder(Plug(d, t)) == Inorder(Plug(c, t))
    {
      ghost var s := c.sibling;
      OutwardKeeps(c, t);
      OutwardInorder(c, t);
      LookUp(Flip(c, t), s);
      Look(Flip(c, t), s);
      ghost var below := InRight(s.left, s.node, s.color, Flip(c, t));
      Look(below, s.right);
      var oright := sibling.right;
      if oright != null {
        SetColor(oright, Black, below, s.right);
      }
      ghost var s' := Fork(s.left, s.node, Black, Painted(s.right, Black));
      SetColor(sibling, Red, Flip(c, t), s');
      tmp := RotateLeft(sibling, Flip(c, t), Painted(s', Red));
      d := WithSibling(c, Outward(c));
      PlugSameInorder(c.up, Zoom(c, t), Zoom(d, t));
      LookUp(d, t);
      tmp := parent.left;
    }

    /** RB_REMOVE_COLOR, hole on the right: the last rotation, which pays the missing black. */
    method SettleRight(parent: Node<K>, tmp: Node<K>, ghost c: Hole<K>, ghost t: Shape<K>)
      requires Is(Plug(c, t)) && RemovalDefect(c, t) && !IsRed(t) && c.InRight? && c.node == parent
      requires c.sibling.Fork? && c.sibling.node == tmp && !IsRed(c.sibling) && IsRed(c.sibling.left)
      modifies `root, pool
      ensures Is(Plug(c.up, Settled(c, t)))
    {
      ghost var s := c.sibling;
      LookUp(c, t);
      SetColor(tmp, parent.color, Flip(c, t), s);
      ghost var s1 := Painted(s, c.color);
      SetColor(parent, Black, c.up, Fork(s1, parent, c.color, t));
      ghost var f := Flip(WithColor(c, Black), t);
      Look(f, s1);
      ghost var below := InLeft(s1.node, s1.color, s1.right, f);
      Look(below, s1.left);
      if tmp.left != null {
        SetColor(tmp.left, Black, below, s1.left);
      }
      ghost var z := Fork(Fork(Blackened(s1.left), s1.node, s1.color, s1.right), parent, Black, t);
      assert Plug(below, Painted(s1.left, Black)) == Plug(f, z.left);
      var _ := RotateRight(parent, c.up, z);
    }

    /** RB_REMOVE_COLOR, hole on the left: a black sibling with a red child pays the missing black. */
    method PayLeft(parent: Node<K>, sibling: Node<K>, ghost c: Hole<K>, ghost t: Shape<K>) returns (ghost w: Shape<K>)
      requires Is(Plug(c, t)) && RemovalDefect(c, t) && !IsRed(t) && c.InLeft? && c.node == parent
      requires c.sibling.Fork? && c.sibling.node == sibling && !IsRed(c.sibling)
      requires IsRed(c.sibling.left) || IsRed(c.sibling.right)
      modifies `root, pool
      ensures Is(w) && RedBlack(w) && root == RootOf(w) && Inorder(w) == Inorder(Plug(c, t))
    {
      var tmp := sibling;
      ghost var d := c;
      LookUp(Flip(c, t), c.sibling);
      Look(Flip(c, t), c.sibling);
      LookAt(Flip(c, t), c.sibling);
      if tmp.right == null || tmp.right.color == Black {
        tmp, d := UnbendLeft(parent, tmp, c, t);
      }
      SettledKeeps(d, t);
      SettledInorder(d, t);
      SettleLeft(parent, tmp, d, t);
      w := Plug(d.up, Settled(d, t));
      Rooted(Snapshot().cells, w, root, null);
    }

    /** The loop body of RB_REMOVE_COLOR when the short subtree `elm` is a left child. */
    method RepayLeft(elm: Node?<K>, parent: Node<K>, ghost c: Hole<K>, ghost t: Shape<K>)
        returns (next: Node?<K>, above: Node?<K>, stop: bool, ghost d: Hole<K>, ghost u: Shape<K>)
      requires Is(Plug(c, t)) && RemovalDefect(c, t) && !IsRed(t)
      requires RootOf(t) == elm && c.InLeft? && c.node == parent
      modifies `root, pool
      ensures Is(Plug(d, u)) && RemovalDefect(d, u) && RootOf(u) == next && Above(d) == above
      ensures Inorder(Plug(d, u)) == Inorder(Plug(c, t))
      ensures if stop then d.Top? else IsRed(u) || Depth(d) < Depth(c)
    {
      next, above, stop, d, u := elm, parent, false, c, t;
      LookUp(c, t);
      SiblingExists(c, t);
      var tmp := parent.right;
      if tmp.color == Red {
        tmp, d := SinkLeft(parent, tmp, c, t);
      }
      ghost var s := d.sibling;
      LookUp(d, t);
      Look(Flip(d, t), s);
      LookAt(Flip(d, t), s);
      if (tmp.left == null || tmp.left.color == Black) && (tmp.right == null || tmp.right.color == Black) {
        LendKeeps(d, t);
        SetColor(tmp, Red, Flip(d, t), s);
        u := Zoom(WithSibling(d, Painted(s, Red)), t);
        PlugSameInorder(d.up, Zoom(d, t), u);
        d := d.up;
        Look(d, u);
        next := parent;
        above := next.parent;
      } else {
        u := PayLeft(parent, tmp, d, t);
        d := Top;
        RedBlackHasNoDefect(u);
        next, above, stop := root, null, true;
      }
    }

    /** RB_REMOVE_COLOR, hole on the right: a black sibling with a red child pays the missing black. */
    method PayRight(parent: Node<K>, sibling: Node<K>, ghost c: Hole<K>, ghost t: Shape<K>) returns (ghost w: Shape<K>)
      requires Is(Plug(c, t)) && RemovalDefect(c, t) && !IsRed(t) && c.InRight? && c.node == parent
      requires c.sibling.Fork? && c.sibling.node == sibling && !IsRed(c.sibling)
      requires IsRed(c.sibling.left) || IsRed(c.sibling.right)
      modifies `root, pool
      ensures Is(w) && RedBlack(w) && root == RootOf(w) && Inorder(w) == Inorder(Plug(c, t))
    {
      var tmp := sibling;
      ghost var d := c;
      LookUp(Flip(c, t), c.sibling);
      Look(Flip(c, t), c.sibling);
      LookAt(Flip(c, t), c.sibling);
      if tmp.left == null || tmp.left.color == Black {
        tmp, d := UnbendRight(parent, tmp, c, t);
      }
      SettledKeeps(d, t);
      SettledInorder(d, t);
      SettleRight(parent, tmp, d, t);
      w := Plug(d.up, Settled(d, t));
      Rooted(Snapshot().cells, w, root, null);
    }

    /** The loop body of RB_REMOVE_COLOR when the short subtree `elm` is a right child. */
    method RepayRight(elm: Node?<K>, parent: Node<K>, ghost c: Hole<K>, ghost t: Shape<K>)
        returns (next: Node?<K>, above: Node?<K>, stop: bool, ghost d: Hole<K>, ghost u: Shape<K>)
      requires Is(Plug(c, t)) && RemovalDefect(c, t) && !IsRed(t)
      requires RootOf(t) == elm && c.InRight? && c.node == parent
      modifies `root, pool
      ensures Is(Plug(d, u)) && RemovalDefect(d, u) && RootOf(u) == next && Above(d) == above
      ensures Inorder(Plug(d, u)) == Inorder(Plug(c, t))
      ensures if stop then d.Top? else IsRed(u) || Depth(d) < Depth(c)
    {
      next, above, stop, d, u := elm, parent, false, c, t;
      LookUp(c, t);
      SiblingExists(c, t);
      var tmp := parent.left;
      if tmp.color == Red {
        tmp, d := SinkRight(parent, tmp, c, t);
      }
      ghost var s := d.sibling;
      LookUp(d, t);
      Look(Flip(d, t), s);
      LookAt(Flip(d, t), s);
      if (tmp.left == null || tmp.left.color == Black) && (tmp.right == null || tmp.right.color == Black) {
        LendKeeps(d, t);
        SetColor(tmp, Red, Flip(d, t), s);
        u := Zoom(WithSibling(d, Painted(s, Red)), t);
        PlugSameInorder(d.up, Zoom(d, t), u);
        d := d.up;
        Look(d, u);
        next := parent;
        above := next.parent;
      } else {
        u := PayRight(parent, tmp, d, t);
        d := Top;
        RedBlackHasNoDefect(u);
        next, above, stop := root, null, true;
      }
    }

    /** The hole is the whole tree just when its content is what `root` points to. */
    lemma LookRoot(c: Hole<K>, t: Shape<K>)
      requires Is(Plug(c, t))
      ensures c.Top? <==> root == RootOf(t)
      ensures t.Fork? ==> t.node in pool && t.node.color == t.color
    {
      Rooted(Snapshot().cells, Plug(c, t), root, null);
      if t.Fork? {
        Look(c, t);
      } else if !c.Top? {
        PlugForks(c, t);
      }
    }

    /** RB_REMOVE_COLOR, started where every path through `child` is one black short. */
    method RemoveColor(above: Node?<K>, child: Node?<K>, ghost cx: Hole<K>, ghost tx: Shape<K>)
        returns (ghost w: Shape<K>)
      requires Is(Plug(cx, tx)) && RemovalDefect(cx, tx) && RootOf(tx) == child && Above(cx) == above
      modifies `root, pool
      ensures Is(w) && RedBlack(w) && Inorder(w) == Inorder(Plug(cx, tx))
    {
      var elm, parent := child, above;
      ghost var c, t := cx, tx;
      LookRoot(c, t);
      while (elm == null || elm.color == Black) && elm != root
        invariant Is(Plug(c, t)) && RemovalDefect(c, t) && RootOf(t) == elm && Above(c) == parent
        invariant (c.Top? <==> root == elm) && (elm != null ==> elm.color == t.color)
        invariant Inorder(Plug(c, t)) == Inorder(Plug(cx, tx))
        decreases if IsRed(t) then 0 else 1 + Depth(c)
      {
        var stop;
        LookUp(c, t);
        if parent.left == elm {
          SiblingExists(c, t);
          elm, parent, stop, c, t := RepayLeft(elm, parent, c, t);
        } else {
          elm, parent, stop, c, t := RepayRight(elm, parent, c, t);
        }
        LookRoot(c, t);
        if stop {
          break;
        }
      }
      RemovalDone(c, t);
      LookRoot(c, t);
      if elm != null {
        SetColor(elm, Black, c, t);
      }
      w := Plug(c, Blackened(t));
    }

    // ---------------------------------------------------------------- removal

    /** Hangs `child` where its parent `elm` hung: the pointer assignments. */
    method Unhook(elm: Node<K>, child: Node?<K>, parent: Node?<K>)
      requires child == null || (child in pool && child != parent)
      requires parent == null || parent in pool
      requires elm != child && elm != parent
      modifies `root, child, parent
      ensures Spliced(old(Snapshot()), Snapshot(), elm, child, parent)
    {
      if child != null {
        child.parent := parent;
      }
      if parent != null {
        if parent.left == elm {
          parent.left := child;
        } else {
          parent.right := child;
        }
      } else {
        root := child;
      }
    }

    /** Hangs `child` where its parent `elm` hung; the fields of `elm` itself stay as they were. */
    method Splice(elm: Node<K>, child: Node?<K>, parent: Node?<K>, ghost c: Hole<K>, ghost t: Shape<K>, ghost u: Shape<K>)
      requires Is(Plug(c, t)) && t.Fork? && t.node == elm && parent == Above(c)
      requires (u == t.left || u == t.right) && RootOf(u) == child
      modifies `root, pool
      ensures Is(Plug(c, u)) && unchanged(elm)
    {
      ghost var h := Snapshot();
      PlugAt(h, c, t);
      LookAt(c, t);
      Look(c, t);
      if !c.Top? { LookUp(c, t); }
      ChildApart(c, t, u);
      Unhook(elm, child, parent);
      SplicedHolds(h, Snapshot(), c, t, u);
    }

    /** Puts `elm` in the place of `gone`: the pointer assignments. */
    method Substitute(gone: Node<K>, elm: Node<K>)
      requires gone in pool && elm in pool && elm != gone
      requires gone.left != null && gone.left in pool && gone.left != elm && gone.left != gone && gone.left != gone.right
      requires gone.right == null || (gone.right in pool && gone.right != elm && gone.right != gone)
      requires var p := gone.parent;
        p == null || (p in pool && p != elm && p != gone && p != gone.left && p != gone.right)
      modifies `root, pool
      ensures Replaced(old(Snapshot()), Snapshot(), gone, elm, old(gone.parent))
    {
      elm.left, elm.right, elm.parent, elm.color := gone.left, gone.right, gone.parent, gone.color;
      if gone.parent != null {
        if gone.parent.left == gone {
          gone.parent.left := elm;
        } else {
          gone.parent.right := elm;
        }
      } else {
        root := elm;
      }
      gone.left.parent := elm;
      if gone.right != null {
        gone.right.parent := elm;
      }
    }

    /** Puts `elm`, which is no longer in the tree, in the place of `gone`. */
    method Replace(gone: Node<K>, elm: Node<K>, ghost c: Hole<K>, ghost t: Shape<K>)
      requires Is(Plug(c, t)) && t.Fork? && t.node == gone && t.left.Fork?
      requires elm in pool && elm !in Nodes(Plug(c, t))
      modifies `root, pool
      ensures Is(Plug(c, t.(node := elm)))
    {
      ghost var h := Snapshot();
      PlugAt(h, c, t);
      PlugNodes(c, t);
      LookAt(c, t);
      Look(c, t);
      if !c.Top? { LookUp(c, t); }
      ChildApart(c, t, t.left);
      ChildApart(c, t, t.right);
      Substitute(gone, elm);
      ReplacedHolds(h, Snapshot(), c, t, elm);
    }

    /** The descent of RB_REMOVE to the leftmost node `elm` below the right child of `gone`. */
    method Successor(gone: Node<K>, ghost c: Hole<K>, ghost t: Shape<K>)
        returns (elm: Node<K>, ghost k: Hole<K>, ghost s: Shape<K>)
      requires Is(Plug(c, t)) && t.Fork? && t.node == gone && t.right.Fork?
      ensures s.Fork? && s.node == elm && s.left.Leaf? && Plug(k, s) == t.right && Before(k) == []
      ensures Plug(Append(k, InRight(t.left, gone, t.color, c)), s) == Plug(c, t)
      ensures !k.Top? ==> k.node != gone
    {
      ghost var base := InRight(t.left, gone, t.color, c);
      k, s := Top, t.right;
      Look(c, t);
      Look(base, s);
      elm := gone.right;
      var left := elm.left;
      while left != null
        invariant s.Fork? && s.node == elm && left == RootOf(s.left)
        invariant Plug(k, s) == t.right && Before(k) == []
        invariant Plug(Append(k, base), s) == Plug(c, t)
        decreases s
      {
        elm := left;
        k, s := InLeft(s.node, s.color, s.right, k), s.left;
        Look(Append(k, base), s);
        left := elm.left;
      }
      PlugNodes(c, t);
      PlugNodes(k, s);
    }

    /** The middle part of RB_REMOVE, for a node with two children: its in-order successor is taken
        out of its own place and put into the removed node's place. */
    method TakeSuccessor(gone: Node<K>, ghost c: Hole<K>, ghost t: Shape<K>)
        returns (child: Node?<K>, parent: Node?<K>, color: Color, ghost d: Hole<K>, ghost u: Shape<K>)
      requires Is(Plug(c, t)) && RedBlack(Plug(c, t)) && t.Fork? && t.node == gone && t.left.Fork? && t.right.Fork?
      modifies `root, pool
      ensures Is(Plug(d, u)) && RootOf(u) == child && Above(d) == parent
      ensures if color == Black then RemovalDefect(d, u) else RedBlack(Plug(d, u))
      ensures Inorder(Plug(d, u)) == LeftOf(c, t) + RightOf(c, t)
    {
      ghost var k, s;
      var elm;
      elm, k, s := Successor(gone, c, t);
      ghost var full := Append(k, InRight(t.left, gone, t.color, c));
      u := s.right;
      d := Append(k, InRight(t.left, elm, t.color, c));
      Look(full, s);
      child := elm.right;
      parent := elm.parent;
      color := elm.color;
      SpliceKeeps(full, s);
      SplicedNodes(full, s);
      RenameKeeps(k, t.left, gone, elm, t.color, c, u);
      Splice(elm, child, parent, full, s, u);
      if elm.parent == gone {
        parent := elm;
      }
      ghost var rest := Fork(t.left, gone, t.color, Plug(k, u));
      PlugAppend(k, InRight(t.left, gone, t.color, c), u);
      PlugAppend(k, InRight(t.left, elm, t.color, c), u);
      Replace(gone, elm, c, rest);
      SuccessorInorder(c, t, k, s);
    }

    // ---------------------------------------------------------------- the tree as a whole

    ghost predicate Valid()
      reads this, pool
    {
      && IsOrder(cmp) && Is(shape) && RedBlack(shape) && Sorted(cmp, shape)
      && pool == Nodes(shape)
    }

    /** The nodes in ascending order of their keys. */
    ghost function Elements(): seq<Node<K>>
      reads `shape
    {
      Inorder(shape)
    }

    /** RB_INIT */
    constructor (cmp: (K, K) -> int)
      requires IsOrder(cmp)
      ensures Valid() && this.cmp == cmp && Elements() == []
    {
      this.cmp := cmp;
      root := null;
      pool, shape := {}, Leaf;
    }

    // ---------------------------------------------------------------- lookups

    /** RB_FIND. The ghost result counts the nodes compared with. */
    method Find(elm: Node<K>) returns (r: Node?<K>, ghost visits: nat)
      requires Valid()
      ensures r != null ==> r in Elements() && cmp(elm.key, r.key) == 0
      ensures r == null ==> Lacks(cmp, Keys(Elements()), elm.key)
      ensures Pow2((visits + 1) / 2) <= |Elements()| + 1
    {
      var tmp := root;
      ghost var c, t := Top, shape;
      visits := 0;
      LookRoot(c, t);
      while tmp != null
        invariant Plug(c, t) == shape && RootOf(t) == tmp && Brackets(cmp, c, elm.key)
        invariant visits + Height(t) <= Height(shape)
        decreases t
      {
        visits := visits + 1;
        Look(c, t);
        Descend(cmp, c, t, elm.key);
        var comp := cmp(elm.key, tmp.key);
        if comp < 0 {
          tmp := tmp.left;
          c, t := InLeft(t.node, t.color, t.right, c), t.left;
        } else if comp > 0 {
          tmp := tmp.right;
          c, t := InRight(t.left, t.node, t.color, c), t.right;
        } else {
          InFocus(c, t);
          HeightBound(shape, visits);
          return tmp, visits;
        }
      }
      Absent(cmp, c, elm.key);
      HeightBound(shape, visits);
      return null, visits;
    }

    /** RB_NFIND: the least element not below the key. */
    method NFind(elm: Node<K>) returns (r: Node?<K>, ghost visits: nat)
      requires Valid()
      ensures IsCeiling(cmp, Elements(), elm.key, r)
      ensures Pow2((visits + 1) / 2) <= |Elements()| + 1
    {
      var tmp := root;
      var res := null;
      ghost var c, t := Top, shape;
      visits := 0;
      LookRoot(c, t);
      while tmp != null
        invariant Plug(c, t) == shape && RootOf(t) == tmp && Brackets(cmp, c, elm.key)
        invariant visits + Height(t) <= Height(shape)
        invariant res == FirstOf(After(c))
        decreases t
      {
        visits := visits + 1;
        Look(c, t);
        Descend(cmp, c, t, elm.key);
        FirstAfter(c, t);
        var comp := cmp(elm.key, tmp.key);
        if comp < 0 {
          res := tmp;
          tmp := tmp.left;
          c, t := InLeft(t.node, t.color, t.right, c), t.left;
        } else if comp > 0 {
          tmp := tmp.right;
          c, t := InRight(t.left, t.node, t.color, c), t.right;
        } else {
          HeightBound(shape, visits);
          CeilingHere(cmp, c, t, elm.key);
          return tmp, visits;
        }
      }
      HeightBound(shape, visits);
      CeilingAfter(cmp, c, elm.key);
      return res, visits;
    }

    /** RB_MINMAX */
    method MinMax(val: int) returns (parent: Node?<K>)
      requires Valid()
      ensures parent == NodeAt(Elements(), if val < 0 then 0 else |Elements()| - 1)
    {
      var tmp := root;
      parent := null;
      ghost var c, t := Top, shape;
      LookRoot(c, t);
      while tmp != null
        invariant Plug(c, t) == shape && RootOf(t) == tmp && Above(c) == parent
        invariant val < 0 ==> Before(c) == [] && (parent != null ==> FirstOf(After(c)) == parent)
        invariant val >= 0 ==> After(c) == [] && (parent != null ==> LastOf(Before(c)) == parent)
        decreases t
      {
        parent := tmp;
        Look(c, t);
        FirstAfter(c, t);
        LastBefore(c, t);
        if val < 0 {
          tmp := tmp.left;
          c, t := InLeft(t.node, t.color, t.right, c), t.left;
        } else {
          tmp := tmp.right;
          c, t := InRight(t.left, t.node, t.color, c), t.right;
        }
      }
      PlugInorder(c, t);
      assert Elements() == Before(c) + After(c);
    }

    /** RB_NEXT */
    method Next(x: Node<K>) returns (r: Node?<K>)
      requires Valid() && x in pool
      ensures forall i :: 0 <= i < |Elements()| && Elements()[i] == x ==> r == NodeAt(Elements(), i + 1)
    {
      var elm: Node<K> := x;
      ghost var c, t := Locate(Top, shape, x);
      OnlyHere(cmp, c, t);
      ghost var after := RightOf(c, t);
      Look(c, t);
      if elm.right != null {
        elm := elm.right;
        c, t := InRight(t.left, t.node, t.color, c), t.right;
        Look(c, t);
        while elm.left != null
          invariant t.Fork? && Plug(c, t) == shape && t.node == elm && Inorder(t) + After(c) == after
          invariant elm.left == RootOf(t.left)
          decreases t
        {
          elm := elm.left;
          assert Inorder(t) + After(c) == Inorder(t.left) + After(InLeft(t.node, t.color, t.right, c));
          c, t := InLeft(t.node, t.color, t.right, c), t.left;
          Look(c, t);
        }
        r := elm;
      } else {
        r := NextAbove(elm, c, t);
      }
    }

    /** The climbing part of RB_NEXT. */
    method NextAbove(x: Node<K>, ghost cx: Hole<K>, ghost tx: Shape<K>) returns (r: Node?<K>)
      requires Valid() && Plug(cx, tx) == shape && tx.Fork? && tx.node == x
      ensures r == FirstOf(After(cx))
    {
      var elm: Node<K> := x;
      ghost var c, t := cx, tx;
      Look(c, t);
      if !c.Top? { LookUp(c, t); }
      if elm.parent != null && elm == elm.parent.left {
        return elm.parent;
      }
      while elm.parent != null && elm == elm.parent.right
        invariant Plug(c, t) == shape && t.Fork? && t.node == elm && elm.parent == Above(c)
        invariant !c.Top? ==> (elm == elm.parent.right <==> c.InRight?)
        invariant After(c) == After(cx)
        decreases Depth(c)
      {
        elm := elm.parent;
        c, t := c.up, Zoom(c, t);
        Look(c, t);
        if !c.Top? { LookUp(c, t); }
      }
      return elm.parent;
    }

    /** RB_PREV */
    method Prev(x: Node<K>) returns (r: Node?<K>)
      requires Valid() && x in pool
      ensures forall i :: 0 <= i < |Elements()| && Elements()[i] == x ==> r == NodeAt(Elements(), i - 1)
    {
      var elm: Node<K> := x;
      ghost var c, t := Locate(Top, shape, x);
      OnlyHere(cmp, c, t);
      ghost var before := LeftOf(c, t);
      Look(c, t);
      if elm.left != null {
        elm := elm.left;
        c, t := InLeft(t.node, t.color, t.right, c), t.left;
        Look(c, t);
        while elm.right != null
          invariant t.Fork? && Plug(c, t) == shape && t.node == elm && Before(c) + Inorder(t) == before
          invariant elm.right == RootOf(t.right)
          decreases t
        {
          elm := elm.right;
          assert Before(c) + Inorder(t) == Before(InRight(t.left, t.node, t.color, c)) + Inorder(t.right);
          c, t := InRight(t.left, t.node, t.color, c), t.right;
          Look(c, t);
        }
        r := elm;
      } else {
        r := PrevAbove(elm, c, t);
      }
    }

    /** The climbing part of RB_PREV. */
    method PrevAbove(x: Node<K>, ghost cx: Hole<K>, ghost tx: Shape<K>) returns (r: Node?<K>)
      requires Valid() && Plug(cx, tx) == shape && tx.Fork? && tx.node == x
      ensures r == LastOf(Before(cx))
    {
      var elm: Node<K> := x;
      ghost var c, t := cx, tx;
      Look(c, t);
      if !c.Top? { LookUp(c, t); }
      if elm.parent != null && elm == elm.parent.right {
        return elm.parent;
      }
      while elm.parent != null && elm == elm.parent.left
        invariant Plug(c, t) == shape && t.Fork? && t.node == elm && elm.parent == Above(c)
        invariant !c.Top? ==> (elm == elm.parent.left <==> c.InLeft?)
        invariant Before(c) == Before(cx)
        decreases Depth(c)
      {
        elm := elm.parent;
        c, t := c.up, Zoom(c, t);
        Look(c, t);
        if !c.Top? { LookUp(c, t); }
      }
      return elm.parent;
    }

    // ---------------------------------------------------------------- insertion and removal

    /** The assignments of RB_INSERT that link `elm` in below `parent`. */
    method Attach(elm: Node<K>, parent: Node?<K>, comp: int, ghost c: Hole<K>)
      requires Is(Plug(c, Leaf)) && elm !in pool && parent == Above(c)
      requires parent != null ==> parent in pool && (comp < 0 <==> c.InLeft?)
      modifies `root, `pool, elm, parent
      ensures pool == old(pool) + {elm}
      ensures Is(Plug(c, Fork(Leaf, elm, Red, Leaf)))
    {
      ghost var h := Snapshot();
      elm.parent := parent;
      elm.left, elm.right := null, null;
      elm.color := Red;
      if parent != null {
        if comp < 0 {
          parent.left := elm;
        } else {
          parent.right := elm;
        }
      } else {
        root := elm;
      }
      pool := pool + {elm};
      AttachedHolds(h, Snapshot(), c, elm);
    }

    /** The descent of RB_INSERT: the resident node with an equal key, or the place for a new one. The ghost
        result `visits` counts the nodes compared with. */
    method Descent(elm: Node<K>) returns (resident: Node?<K>, parent: Node?<K>, comp: int, ghost c: Hole<K>, ghost visits: nat)
      requires Valid()
      ensures visits <= Height(shape)
      ensures resident != null ==> resident in Elements() && cmp(elm.key, resident.key) == 0
      ensures resident == null ==>
                && Plug(c, Leaf) == shape && Brackets(cmp, c, elm.key) && parent == Above(c)
                && (parent != null ==> parent in pool && (comp < 0 <==> c.InLeft?))
    {
      var tmp := root;
      ghost var t := shape;
      c, parent, comp, visits := Top, null, 0, 0;
      LookRoot(c, t);
      while tmp != null
        invariant Plug(c, t) == shape && RootOf(t) == tmp && Brackets(cmp, c, elm.key)
        invariant visits + Height(t) <= Height(shape)
        invariant parent == Above(c) && (parent != null ==> parent in pool && (comp < 0 <==> c.InLeft?))
        decreases t
      {
        visits := visits + 1;
        parent := tmp;
        Look(c, t);
        Descend(cmp, c, t, elm.key);
        comp := cmp(elm.key, parent.key);
        if comp < 0 {
          tmp := tmp.left;
          c, t := InLeft(t.node, t.color, t.right, c), t.left;
        } else if comp > 0 {
          tmp := tmp.right;
          c, t := InRight(t.left, t.node, t.color, c), t.right;
        } else {
          InFocus(c, t);
          return tmp, parent, comp, c, visits;
        }
      }
      return null, parent, comp, c, visits;
    }

    /** The part of RB_INSERT that links in a new node and repairs the colours. */
    method InsertAt(elm: Node<K>, parent: Node?<K>, comp: int, ghost c: Hole<K>)
      requires Valid() && elm !in pool && Plug(c, Leaf) == shape && Brackets(cmp, c, elm.key)
      requires parent == Above(c) && (parent != null ==> parent in pool && (comp < 0 <==> c.InLeft?))
      modifies `root, `pool, `shape, pool, elm
      ensures Valid() && pool == old(pool) + {elm} && Elements() == Before(c) + [elm] + After(c)
    {
      ghost var t := Fork(Leaf, elm, Red, Leaf);
      NewDefect(c, elm);
      NewSorted(cmp, c, elm);
      HoleInorder(c, elm);
      Attach(elm, parent, comp, c);
      shape := InsertColor(elm, c, t);
      SameElements(shape, Plug(c, t));
    }

    /** A node of the tree is the only one there with its key. */
    lemma Resident(elm: Node<K>)
      requires Valid() && elm in pool
      ensures !Lacks(cmp, Keys(Elements()), elm.key)
      ensures forall x :: x in Elements() && cmp(elm.key, x.key) == 0 ==> x == elm
    {
      Members();
      var i :| 0 <= i < |Elements()| && Elements()[i] == elm;
      OnlyOne(cmp, Keys(Elements()), i);
      forall x | x in Elements() && cmp(elm.key, x.key) == 0 ensures x == elm {
        var j :| 0 <= j < |Elements()| && Elements()[j] == x;
        assert Keys(Elements())[j] == x.key;
      }
    }

    /** RB_INSERT. The ghost results are the position at which the new node is inserted and the number of
        nodes compared with. */
    method Insert(elm: Node<K>) returns (r: Node?<K>, ghost i: nat, ghost visits: nat)
      requires Valid()
      modifies `root, `pool, `shape, pool, elm
      ensures Valid() && Pow2((visits + 1) / 2) <= |old(Elements())| + 1
      ensures r != null ==>
                && r in old(Elements()) && cmp(elm.key, r.key) == 0
                && shape == old(shape) && root == old(root) && pool == old(pool)
                && unchanged(elm) && unchanged(pool)
      ensures elm in old(pool) ==> r == elm
      ensures r == null ==>
                && Lacks(cmp, Keys(old(Elements())), elm.key) && pool == old(pool) + {elm}
                && i <= |old(Elements())| && Elements() == old(Elements()[..i]) + [elm] + old(Elements()[i..])
    {
      var parent, comp;
      ghost var c;
      r, parent, comp, c, visits := Descent(elm);
      HeightBound(shape, visits);
      if elm in pool { Resident(elm); }
      i := 0;
      if r == null {
        Absent(cmp, c, elm.key);
        i := |Before(c)|;
        assert Elements()[..i] == Before(c) && Elements()[i..] == After(c);
        InsertAt(elm, parent, comp, c);
      }
    }

    /** The first part of RB_REMOVE: takes the node at a known place out of the tree, colours aside. */
    method TakeOut(elm: Node<K>, ghost c: Hole<K>, ghost t: Shape<K>)
        returns (child: Node?<K>, parent: Node?<K>, color: Color, ghost d: Hole<K>, ghost u: Shape<K>)
      requires Is(Plug(c, t)) && RedBlack(Plug(c, t)) && t.Fork? && t.node == elm
      modifies `root, pool
      ensures Is(Plug(d, u)) && RootOf(u) == child && Above(d) == parent
      ensures if color == Black then RemovalDefect(d, u) else RedBlack(Plug(d, u))
      ensures Inorder(Plug(d, u)) == LeftOf(c, t) + RightOf(c, t)
    {
      Look(c, t);
      if elm.left == null || elm.right == null {
        if elm.left == null {
          child := elm.right;
        } else {
          child := elm.left;
        }
        SpliceKeeps(c, t);
        SplicedInorder(c, t);
        d, u := c, OnlyChild(t);
        parent := elm.parent;
        color := elm.color;
        Splice(elm, child, parent, c, t, u);
      } else {
        child, parent, color, d, u := TakeSuccessor(elm, c, t);
      }
    }

    /** RB_REMOVE of the node at a known place. */
    method RemoveAt(elm: Node<K>, ghost c: Hole<K>, ghost t: Shape<K>) returns (ghost w: Shape<K>)
      requires Is(Plug(c, t)) && RedBlack(Plug(c, t)) && t.Fork? && t.node == elm
      modifies `root, pool
      ensures Is(w) && RedBlack(w) && Inorder(w) == LeftOf(c, t) + RightOf(c, t)
    {
      var child, parent, color;
      ghost var d, u;
      child, parent, color, d, u := TakeOut(elm, c, t);
      w := Plug(d, u);
      if color == Black {
        w := RemoveColor(parent, child, d, u);
      }
    }

    /** RB_REMOVE. The ghost result is the position of the removed node. */
    method Remove(elm: Node<K>) returns (r: Node<K>, ghost i: nat)
      requires Valid() && elm in pool
      modifies `root, `pool, `shape, pool
      ensures Valid() && r == elm && pool == old(pool) - {elm}
      ensures i < |old(Elements())| && old(Elements())[i] == elm
      ensures Elements() == old(Elements()[..i]) + old(Elements()[i + 1..])
    {
      ghost var c, t := Locate(Top, shape, elm);
      SplitAt(c, t);
      RestSorted(cmp, c, t);
      i := |LeftOf(c, t)|;
      ghost var w := RemoveAt(elm, c, t);
      RestNodes(c, t, w);
      ghost var h := Snapshot();
      shape := w;
      pool := pool - {elm};
      HoldsFrame(h, Snapshot(), w);
      r := elm;
    }

    // ---------------------------------------------------------------- iteration

    /** The nodes of a valid tree are its elements. */
    lemma Members()
      requires Valid()
      ensures pool == SetOf(Elements()) && (root == null <==> Elements() == [])
    {
      InorderNodes(shape);
      LookRoot(Top, shape);
    }

    /** RB_NEXT and RB_PREV of the node at position `i`. */
    method NextAt(x: Node<K>, ghost i: nat) returns (y: Node?<K>)
      requires Valid() && i < |Elements()| && Elements()[i] == x
      ensures x in pool && y == NodeAt(Elements(), i + 1)
    {
      ghost var e := Elements();
      Members();
      assert x in SetOf(e);
      y := Next(x);
      assert e == Elements() && Elements()[i] == x;
    }

    method PrevAt(x: Node<K>, ghost i: nat) returns (y: Node?<K>)
      requires Valid() && i < |Elements()| && Elements()[i] == x
      ensures x in pool && y == NodeAt(Elements(), i - 1)
    {
      ghost var e := Elements();
      Members();
      assert x in SetOf(e);
      y := Prev(x);
      assert e == Elements() && Elements()[i] == x;
    }

    /** RB_FOREACH, with a body that notes the node. */
    method Foreach() returns (visited: seq<Node<K>>)
      requires Valid()
      ensures visited == Elements()
    {
      ghost var e := Elements();
      visited := [];
      var x := MinMax(-1);
      while x != null
        invariant |visited| <= |e| && visited == e[..|visited|]
        invariant x == NodeAt(e, |visited|)
        decreases |e| - |visited|
      {
        var y := NextAt(x, |visited|);
        visited := visited + [x];
        x := y;
      }
    }

    /** RB_PREV undoes RB_NEXT. */
    method NextPrev(x: Node<K>, ghost i: nat) returns (next: Node?<K>, back: Node?<K>)
      requires Valid() && i < |Elements()| && Elements()[i] == x
      ensures next != null ==> next in pool && back == x
    {
      back := null;
      next := NextAt(x, i);
      if next != null {
        back := PrevAt(next, i + 1);
      }
    }

    /** RB_FOREACH_SAFE, with a body that removes the node. */
    method Drain() returns (visited: seq<Node<K>>)
      requires Valid()
      modifies `root, `pool, `shape, pool
      ensures Valid() && Elements() == [] && pool == {} && root == null
      ensures visited == old(Elements())
    {
      ghost var e := Elements();
      visited := [];
      var x := MinMax(-1);
      while x != null
        invariant Valid() && pool <= old(pool)
        invariant |visited| <= |e| && visited == e[..|visited|]
        invariant Elements() == e[|visited|..] && x == NodeAt(Elements(), 0)
        decreases |e| - |visited|
      {
        visited := visited + [x];
        x := DrainStep(x);
      }
      Members();
    }

    method DrainStep(x: Node<K>) returns (y: Node?<K>)
      requires Valid() && Elements() != [] && x == Elements()[0]
      modifies `root, `pool, `shape, pool
      ensures Valid() && pool <= old(pool)
      ensures Elements() == old(Elements())[1..] && y == NodeAt(Elements(), 0)
    {
      y := NextAt(x, 0);
      ghost var e := Elements();
      NoRepeats();
      ghost var i;
      var r;
      r, i := Remove(x);
      assert i == 0 && Elements() == e[1..];
    }

    lemma NoRepeats()
      requires Valid()
      ensures forall i, j :: 0 <= i < |Elements()| && 0 <= j < |Elements()| && Elements()[i] == Elements()[j] ==> i == j
    {
      SortedOnce(cmp, Elements());
    }
  }
}
