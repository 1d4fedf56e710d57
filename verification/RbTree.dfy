/** Red-black trees with parent links: rotation, insertion and removal (lib/rbtree.c). */
module RbTree {
  import opened Zipper
  import opened RbMemory
  import opened RbBalance

  /** A pointer to a place a node can be stored in (struct rb_node **). */
  datatype Link = AtRoot | AtLeft(p: Task) | AtRight(p: Task)

  ghost function LinkOf(c: C): Link {
    match c
    case Top => AtRoot
    case InLeft(_, n, _, _) => AtLeft(n)
    case InRight(_, _, n, _) => AtRight(n)
  }

  class RbRoot {
    var node: Task?
    /** The records the tree may be made of. */
    ghost var space: set<Task>
    /** The shape the records have between operations. */
    ghost var tree: T

    ghost function Mem(): Mem
      reads this`space, space`left, space`right, space`parent, space`red
    {
      Snap(space)
    }

    ghost predicate At(c: C, t: T)
      reads this`node, this`space, space`left, space`right, space`parent, space`red
    {
      Holds(Mem(), node, c, t)
    }

    /** Black root, no red node below a red one, equal black heights, and correct parent links. */
    ghost predicate Valid()
      reads this, space`left, space`right, space`parent, space`red
    {
      At(Top, tree) && Balanced(tree)
    }

    method RelinkLeft(node: Task)
      requires node.right != null
      requires {node, node.right, node.right.left, node.parent} <= space + {null}
      requires node.right != node && node.right.left !in {node, node.right}
      requires node.parent != null ==> node.parent !in {node, node.right, node.right.left}
      modifies this`node, space`left, space`right, space`parent
      ensures var y := old(node.right); var b := old(y.left); var p := old(node.parent);
              var m, m' := old(Mem()), Mem();
              && Except(m, m', {node, y, b, p})
              && m'[node] == m[node].(right := b, parent := y)
              && m'[y] == m[y].(left := node, parent := p)
              && (b != null ==> m'[b] == m[b].(parent := node))
              && (p != null ==> m'[p] == if m[p].left == node then m[p].(left := y) else m[p].(right := y))
              && this.node == if p == null then y else old(this.node)
    {
      var right := node.right;
      var parent := node.parent;
      node.right := right.left;
      if right.left != null {
        right.left.parent := node;
      }
      right.left := node;
      right.parent := parent;
      if parent != null {
        if node == parent.left {
          parent.left := right;
        } else {
          parent.right := right;
        }
      } else {
        this.node := right;
      }
      node.parent := right;
    }

    method RotateLeft(node: Task, ghost c: C, ghost t: T)
      requires At(c, t) && t.Node? && t.n == node && t.right.Node?
      modifies this`node, space`left, space`right, space`parent
      ensures At(c, RotL(t))
    {
      TurnLeft(Mem(), this.node, c, t);
      ghost var m := Mem();
      RelinkLeft(node);
      TurnedLeft(m, Mem(), old(this.node), this.node, c, t);
    }

    method RelinkRight(node: Task)
      requires node.left != null
      requires {node, node.left, node.left.right, node.parent} <= space + {null}
      requires node.left != node && node.left.right !in {node, node.left}
      requires node.parent != null ==> node.parent !in {node, node.left, node.left.right}
      modifies this`node, space`right, space`left, space`parent
      ensures var y := old(node.left); var b := old(y.right); var p := old(node.parent);
              var m, m' := old(Mem()), Mem();
              && Except(m, m', {node, y, b, p})
              && m'[node] == m[node].(left := b, parent := y)
              && m'[y] == m[y].(right := node, parent := p)
              && (b != null ==> m'[b] == m[b].(parent := node))
              && (p != null ==> m'[p] == if m[p].right == node then m[p].(right := y) else m[p].(left := y))
              && this.node == if p == null then y else old(this.node)
    {
      var left := node.left;
      var parent := node.parent;
      node.left := left.right;
      if left.right != null {
        left.right.parent := node;
      }
      left.right := node;
      left.parent := parent;
      if parent != null {
        if node == parent.right {
          parent.right := left;
        } else {
          parent.left := left;
        }
      } else {
        this.node := left;
      }
      node.parent := left;
    }

    method RotateRight(node: Task, ghost c: C, ghost t: T)
      requires At(c, t) && t.Node? && t.n == node && t.left.Node?
      modifies this`node, space`right, space`left, space`parent
      ensures At(c, RotR(t))
    {
      TurnRight(Mem(), this.node, c, t);
      ghost var m := Mem();
      RelinkRight(node);
      TurnedRight(m, Mem(), old(this.node), this.node, c, t);
    }

    /** Recolouring the uncle, the parent and the grandparent of the focus. */
    method RecolorUncle(uncle: Task, parent: Task, gparent: Task, ghost c: C, ghost t: T)
      requires At(c, t) && !c.Top? && !c.up.Top? && Sib(c.up).Node?
      requires parent == c.n && gparent == c.up.n && uncle == Sib(c.up).n
      modifies space`red
      ensures At(c.up.up, Whole(WithSib(c.up, true, Paint(Sib(c.up), false)), Paint(Whole(c, t), false)))
    {
      hide Holds;
      ghost var u, P := Sib(c.up), Whole(c, t);
      Up(Mem(), node, c, t);
      Up(Mem(), node, c.up, P);
      ghost var cu := if c.up.InLeft? then InRight(c.up.up, P, c.up.n, c.up.tag) else InLeft(c.up.up, c.up.n, c.up.tag, P);
      Up(Mem(), node, cu, u);
      Around(Mem(), node, cu, u);
      SetColor(uncle, false, cu, u);
      Up(Mem(), node, cu, Paint(u, false));
      ghost var cp := WithSib(c.up, c.up.tag, Paint(u, false));
      Up(Mem(), node, cp, P);
      Around(Mem(), node, cp, P);
      SetColor(parent, false, cp, P);
      Up(Mem(), node, cp, Paint(P, false));
      SetColor(gparent, true, c.up.up, Whole(cp, Paint(P, false)));
    }

    /** The last step of an insertion turn: recolour, then rotate at the grandparent. */
    method TurnOuterRight(parent: Task, gparent: Task, ghost c: C, ghost t: T)
      requires At(c, t) && c.InLeft? && c.up.InLeft? && parent == c.n && gparent == c.up.n
      modifies this`node, space`left, space`right, space`parent, space`red
      ensures At(OuterTurned(c), t)
    {
      hide Holds;
      ghost var P := Whole(c, t);
      Up(Mem(), node, c, t);
      Around(Mem(), node, c.up, P);
      SetColor(parent, false, c.up, P);
      Up(Mem(), node, c.up, Paint(P, false));
      ghost var G := Whole(c.up, Paint(P, false));
      SetColor(gparent, true, c.up.up, G);
      RotateRight(gparent, c.up.up, Paint(G, true));
      Up(Mem(), node, OuterTurned(c), t);
    }

    method TurnOuterLeft(parent: Task, gparent: Task, ghost c: C, ghost t: T)
      requires At(c, t) && c.InRight? && c.up.InRight? && parent == c.n && gparent == c.up.n
      modifies this`node, space`right, space`left, space`parent, space`red
      ensures At(OuterTurned(c), t)
    {
      hide Holds;
      ghost var P := Whole(c, t);
      Up(Mem(), node, c, t);
      Around(Mem(), node, c.up, P);
      SetColor(parent, false, c.up, P);
      Up(Mem(), node, c.up, Paint(P, false));
      ghost var G := Whole(c.up, Paint(P, false));
      SetColor(gparent, true, c.up.up, G);
      RotateLeft(gparent, c.up.up, Paint(G, true));
      Up(Mem(), node, OuterTurned(c), t);
    }

    /** One turn of the loop of rb_insert_color, for a parent that is a left child. */
    method InsertFixLeft(node: Task, parent: Task, gparent: Task, ghost c: C, ghost t: T, ghost h: nat)
      returns (next: Task, ghost c': C, ghost t': T, ghost h': nat)
      requires InsertInv(c, t, h) && At(c, t) && t.n == node
      requires !c.Top? && c.n == parent && c.tag && c.up.InLeft? && c.up.n == gparent
      modifies this`node, space`left, space`right, space`parent, space`red
      ensures At(c', t') && InsertInv(c', t', h') && t'.n == next && Depth(c') < Depth(c)
      ensures InOrder(Plug(c', t')) == InOrder(Plug(c, t))
    {
      hide Holds, RB, RBCtx, InOrder, Plug;
      ghost var up, u, P := c.up.up, c.up.right, Whole(c, t);
      Around(Mem(), this.node, c, t);
      Up(Mem(), this.node, c, t);
      Around(Mem(), this.node, c.up, P);
      var uncle := gparent.right;
      if uncle != null && uncle.red {
        RecolorUncle(uncle, parent, gparent, c, t);
        UncleRed(c, t, h);
        next, c', h' := gparent, up, h + 1;
        t' := Whole(WithSib(c.up, true, Paint(u, false)), Paint(P, false));
        return;
      }
      var node, parent := node, parent;
      ghost var c1, t1 := c, t;
      if parent.right == node {
        RotateLeft(parent, c.up, P);
        Inner(c, t, h);
        c1, t1 := Turned(c, t).0, Turned(c, t).1;
        Up(Mem(), this.node, c1, t1);
        node, parent := parent, node;
      }
      TurnOuterRight(parent, gparent, c1, t1);
      Outer(c1, t1, h);
      next, c', t', h' := node, OuterTurned(c1), t1, h;
    }

    /** The same for a parent that is a right child. */
    method InsertFixRight(node: Task, parent: Task, gparent: Task, ghost c: C, ghost t: T, ghost h: nat)
      returns (next: Task, ghost c': C, ghost t': T, ghost h': nat)
      requires InsertInv(c, t, h) && At(c, t) && t.n == node
      requires !c.Top? && c.n == parent && c.tag && c.up.InRight? && c.up.n == gparent
      modifies this`node, space`right, space`left, space`parent, space`red
      ensures At(c', t') && InsertInv(c', t', h') && t'.n == next && Depth(c') < Depth(c)
      ensures InOrder(Plug(c', t')) == InOrder(Plug(c, t))
    {
      hide Holds, RB, RBCtx, InOrder, Plug;
      ghost var up, u, P := c.up.up, c.up.left, Whole(c, t);
      Around(Mem(), this.node, c, t);
      Up(Mem(), this.node, c, t);
      Around(Mem(), this.node, c.up, P);
      var uncle := gparent.left;
      if uncle != null && uncle.red {
        RecolorUncle(uncle, parent, gparent, c, t);
        UncleRed(c, t, h);
        next, c', h' := gparent, up, h + 1;
        t' := Whole(WithSib(c.up, true, Paint(u, false)), Paint(P, false));
        return;
      }
      var node, parent := node, parent;
      ghost var c1, t1 := c, t;
      if parent.left == node {
        RotateRight(parent, c.up, P);
        Inner(c, t, h);
        c1, t1 := Turned(c, t).0, Turned(c, t).1;
        Up(Mem(), this.node, c1, t1);
        node, parent := parent, node;
      }
      TurnOuterLeft(parent, gparent, c1, t1);
      Outer(c1, t1, h);
      next, c', t', h' := node, OuterTurned(c1), t1, h;
    }

    /** rb_insert_color: node has just been linked as a red leaf. */
    method InsertColor(node: Task, ghost c: C, ghost t: T, ghost h: nat) returns (ghost t': T)
      requires InsertInv(c, t, h) && At(c, t) && t.n == node
      modifies this`node, space`left, space`right, space`parent, space`red
      ensures At(Top, t') && Balanced(t') && InOrder(t') == InOrder(Plug(c, t))
      ensures c.Top? || !c.tag ==> t' == Blackened(Plug(c, t))
    {
      hide Holds, RB, RBCtx, InOrder, Plug;
      var node := node;
      ghost var c', t1, h' := c, t, h;
      Around(Mem(), this.node, c', t1);
      while node.parent != null && node.parent.red
        invariant At(c', t1) && InsertInv(c', t1, h') && t1.n == node
        invariant InOrder(Plug(c', t1)) == InOrder(Plug(c, t)) && (c.Top? || !c.tag ==> c' == c && t1 == t)
        invariant node.parent == ParentOf(c') && (!c'.Top? ==> c'.n.red == c'.tag)
        decreases Depth(c')
      {
        Around(Mem(), this.node, c', t1);
        BlackAbove(c', t1, h');
        Up(Mem(), this.node, c', t1);
        Around(Mem(), this.node, c'.up, Whole(c', t1));
        var parent := node.parent;
        var gparent := parent.parent;
        if parent == gparent.left {
          node, c', t1, h' := InsertFixLeft(node, parent, gparent, c', t1, h');
        } else {
          node, c', t1, h' := InsertFixRight(node, parent, gparent, c', t1, h');
        }
        Around(Mem(), this.node, c', t1);
      }
      h' := InsertDone(c', t1, h');
      Root(Mem(), this.node, c', t1);
      ghost var w := Plug(c', t1);
      Around(Mem(), this.node, Top, w);
      SetColor(this.node, false, Top, w);
      t' := Paint(w, false);
      assert Balanced(t') && InOrder(t') == InOrder(w) by { PaintRoot(w, h'); }
    }

    method PaintSib(n: Task, red: bool, ghost c: C, ghost t: T)
      requires At(c, t) && !c.Top? && Sib(c).Node? && Sib(c).n == n
      modifies space`red
      ensures At(WithSib(c, c.tag, Paint(Sib(c), red)), t)
    {
      hide Holds;
      Flip(Mem(), node, c, t);
      Around(Mem(), node, SibCtx(c, t), Sib(c));
      SetColor(n, red, SibCtx(c, t), Sib(c));
      Flip(Mem(), node, WithSib(c, c.tag, Paint(Sib(c), red)), t);
    }

    /** __rb_erase_color on a left child: the sibling is red. */
    method TurnSibLeft(parent: Task, other: Task, ghost c: C, ghost t: T)
      requires At(c, t) && c.InLeft? && c.right.Node? && parent == c.n && other == c.right.n
      modifies this`node, space`left, space`right, space`parent, space`red
      ensures At(SibTurned(c), t)
    {
      hide Holds;
      PaintSib(other, false, c, t);
      ghost var c1 := WithSib(c, c.tag, Paint(c.right, false));
      Up(Mem(), node, c1, t);
      ghost var W := Whole(c1, t);
      Around(Mem(), node, c.up, W);
      SetColor(parent, true, c.up, W);
      RotateLeft(parent, c.up, Paint(W, true));
      ghost var c' := SibTurned(c);
      Up(Mem(), node, c'.up, Whole(c', t));
      Up(Mem(), node, c', t);
    }

    /** The far nephew is black, the near one red. */
    method TurnNearLeft(other: Task, ghost c: C, ghost t: T)
      requires At(c, t) && c.InLeft? && c.right.Node? && c.right.left.Node? && other == c.right.n
      modifies this`node, space`left, space`right, space`parent, space`red
      ensures At(NearTurned(c), t)
    {
      hide Holds;
      ghost var s, cs := c.right, SibCtx(c, t);
      Flip(Mem(), node, c, t);
      Around(Mem(), node, cs, s);
      ghost var ck := InLeft(cs, s.n, s.tag, s.right);
      Up(Mem(), node, ck, s.left);
      Around(Mem(), node, ck, s.left);
      SetColor(other.left, false, ck, s.left);
      Up(Mem(), node, ck, Paint(s.left, false));
      ghost var s1 := Whole(ck, Paint(s.left, false));
      SetColor(other, true, cs, s1);
      RotateRight(other, cs, Paint(s1, true));
      Flip(Mem(), node, NearTurned(c), t);
    }

    /** The far nephew is red. */
    method TurnFarLeft(parent: Task, other: Task, ghost c: C, ghost t: T)
      requires At(c, t) && c.InLeft? && c.right.Node? && c.right.right.Node? && parent == c.n && other == c.right.n
      modifies this`node, space`left, space`right, space`parent, space`red
      ensures At(c.up, FarTurned(c, t))
    {
      hide Holds;
      ghost var s := c.right;
      Around(Mem(), node, c, t);
      PaintSib(other, parent.red, c, t);
      ghost var c1 := WithSib(c, c.tag, Paint(s, c.tag));
      Up(Mem(), node, c1, t);
      ghost var W := Whole(c1, t);
      Around(Mem(), node, c.up, W);
      SetColor(parent, false, c.up, W);
      ghost var cs := InRight(c.up, t, c.n, false);
      ghost var ck := InRight(cs, s.left, s.n, c.tag);
      Up(Mem(), node, cs, Paint(s, c.tag));
      Up(Mem(), node, ck, s.right);
      Around(Mem(), node, ck, s.right);
      SetColor(other.right, false, ck, s.right);
      Up(Mem(), node, ck, Paint(s.right, false));
      ghost var s1 := Whole(ck, Paint(s.right, false));
      Up(Mem(), node, cs, s1);
      RotateLeft(parent, c.up, Whole(cs, s1));
    }

    method TurnSibRight(parent: Task, other: Task, ghost c: C, ghost t: T)
      requires At(c, t) && c.InRight? && c.left.Node? && parent == c.n && other == c.left.n
      modifies this`node, space`right, space`left, space`parent, space`red
      ensures At(SibTurned(c), t)
    {
      hide Holds;
      PaintSib(other, false, c, t);
      ghost var c1 := WithSib(c, c.tag, Paint(c.left, false));
      Up(Mem(), node, c1, t);
      ghost var W := Whole(c1, t);
      Around(Mem(), node, c.up, W);
      SetColor(parent, true, c.up, W);
      RotateRight(parent, c.up, Paint(W, true));
      ghost var c' := SibTurned(c);
      Up(Mem(), node, c'.up, Whole(c', t));
      Up(Mem(), node, c', t);
    }

    method TurnNearRight(other: Task, ghost c: C, ghost t: T)
      requires At(c, t) && c.InRight? && c.left.Node? && c.left.right.Node? && other == c.left.n
      modifies this`node, space`right, space`left, space`parent, space`red
      ensures At(NearTurned(c), t)
    {
      hide Holds;
      ghost var s, cs := c.left, SibCtx(c, t);
      Flip(Mem(), node, c, t);
      Around(Mem(), node, cs, s);
      ghost var ck := InRight(cs, s.left, s.n, s.tag);
      Up(Mem(), node, ck, s.right);
      Around(Mem(), node, ck, s.right);
      SetColor(other.right, false, ck, s.right);
      Up(Mem(), node, ck, Paint(s.right, false));
      ghost var s1 := Whole(ck, Paint(s.right, false));
      SetColor(other, true, cs, s1);
      RotateLeft(other, cs, Paint(s1, true));
      Flip(Mem(), node, NearTurned(c), t);
    }

    method TurnFarRight(parent: Task, other: Task, ghost c: C, ghost t: T)
      requires At(c, t) && c.InRight? && c.left.Node? && c.left.left.Node? && parent == c.n && other == c.left.n
      modifies this`node, space`right, space`left, space`parent, space`red
      ensures At(c.up, FarTurned(c, t))
    {
      hide Holds;
      ghost var s := c.left;
      Around(Mem(), node, c, t);
      PaintSib(other, parent.red, c, t);
      ghost var c1 := WithSib(c, c.tag, Paint(s, c.tag));
      Up(Mem(), node, c1, t);
      ghost var W := Whole(c1, t);
      Around(Mem(), node, c.up, W);
      SetColor(parent, false, c.up, W);
      ghost var cs := InLeft(c.up, c.n, false, t);
      ghost var ck := InLeft(cs, s.n, c.tag, s.right);
      Up(Mem(), node, cs, Paint(s, c.tag));
      Up(Mem(), node, ck, s.left);
      Around(Mem(), node, ck, s.left);
      SetColor(other.left, false, ck, s.left);
      Up(Mem(), node, ck, Paint(s.left, false));
      ghost var s1 := Whole(ck, Paint(s.left, false));
      Up(Mem(), node, cs, s1);
      RotateRight(parent, c.up, Whole(cs, s1));
    }

    /** One turn of the loop of __rb_erase_color, for a node that is a left child; `done` says
        that the loop is left with node at the root. */
    method EraseFixLeft(parent: Task, ghost c: C, ghost t: T, ghost h: nat)
      returns (done: bool, next: Task?, above: Task?, ghost c': C, ghost t': T, ghost h': nat)
      requires EraseInv(c, t, h) && !IsRed(t) && At(c, t) && c.InLeft? && parent == c.n
      modifies this`node, space`left, space`right, space`parent, space`red
      ensures EraseStep(c, t, done, c', t', h') && At(c', t')
      ensures next == Ptr(t') && above == ParentOf(c')
    {
      hide Holds, RB, RBCtx, InOrder, Plug;
      ghost var c1 := c;
      SibThere(c, t, h);
      Around(Mem(), node, c, t);
      var other := parent.right;
      if other.red {
        TurnSibLeft(parent, other, c, t);
        SibRed(c, t, h);
        c1 := SibTurned(c);
        SibThere(c1, t, h);
        Around(Mem(), node, c1, t);
        other := parent.right;
      }
      done, next, above, c', t', h' := EraseBlackLeft(parent, other, c1, t, h);
    }

    /** The rest of that turn, when the sibling is black. */
    method EraseBlackLeft(parent: Task, other: Task, ghost c: C, ghost t: T, ghost h: nat)
      returns (done: bool, next: Task?, above: Task?, ghost c': C, ghost t': T, ghost h': nat)
      requires EraseInv(c, t, h) && !IsRed(t) && At(c, t) && c.InLeft? && parent == c.n
      requires c.right.Node? && !c.right.tag && other == c.right.n
      modifies this`node, space`left, space`right, space`parent, space`red
      ensures EraseStep(c, t, done, c', t', h') && At(c', t')
      ensures next == Ptr(t') && above == ParentOf(c') && (!done ==> c' == c.up && IsRed(t') == c.tag)
    {
      hide Holds, RB, RBCtx, InOrder, Plug;
      Nephews(Mem(), node, c, t);
      if (other.left == null || !other.left.red) && (other.right == null || !other.right.red) {
        PaintSib(other, true, c, t);
        h' := SibBlack(c, t, h);
        ghost var c1 := WithSib(c, c.tag, Paint(c.right, true));
        c', t' := c.up, Whole(c1, t);
        Up(Mem(), node, c1, t);
        Around(Mem(), node, c', t');
        done, next, above := false, parent, parent.parent;
      } else {
        var other := other;
        ghost var c1 := c;
        if other.right == null || !other.right.red {
          TurnNearLeft(other, c, t);
          NearRed(c, t, h);
          c1 := NearTurned(c);
          Around(Mem(), node, c1, t);
          other := parent.right;
        }
        TurnFarLeft(parent, other, c1, t);
        FarRed(c1, t, h);
        c', t', h' := Top, Plug(c1.up, FarTurned(c1, t)), h;
        Root(Mem(), node, c1.up, FarTurned(c1, t));
        Around(Mem(), node, c', t');
        PlugTop(t');
        done, next, above := true, node, null;
      }
    }

    method EraseFixRight(parent: Task, ghost c: C, ghost t: T, ghost h: nat)
      returns (done: bool, next: Task?, above: Task?, ghost c': C, ghost t': T, ghost h': nat)
      requires EraseInv(c, t, h) && !IsRed(t) && At(c, t) && c.InRight? && parent == c.n
      modifies this`node, space`right, space`left, space`parent, space`red
      ensures EraseStep(c, t, done, c', t', h') && At(c', t')
      ensures next == Ptr(t') && above == ParentOf(c')
    {
      hide Holds, RB, RBCtx, InOrder, Plug;
      ghost var c1 := c;
      SibThere(c, t, h);
      Around(Mem(), node, c, t);
      var other := parent.left;
      if other.red {
        TurnSibRight(parent, other, c, t);
        SibRed(c, t, h);
        c1 := SibTurned(c);
        SibThere(c1, t, h);
        Around(Mem(), node, c1, t);
        other := parent.left;
      }
      done, next, above, c', t', h' := EraseBlackRight(parent, other, c1, t, h);
    }

    method EraseBlackRight(parent: Task, other: Task, ghost c: C, ghost t: T, ghost h: nat)
      returns (done: bool, next: Task?, above: Task?, ghost c': C, ghost t': T, ghost h': nat)
      requires EraseInv(c, t, h) && !IsRed(t) && At(c, t) && c.InRight? && parent == c.n
      requires c.left.Node? && !c.left.tag && other == c.left.n
      modifies this`node, space`right, space`left, space`parent, space`red
      ensures EraseStep(c, t, done, c', t', h') && At(c', t')
      ensures next == Ptr(t') && above == ParentOf(c') && (!done ==> c' == c.up && IsRed(t') == c.tag)
    {
      hide Holds, RB, RBCtx, InOrder, Plug;
      Nephews(Mem(), node, c, t);
      if (other.left == null || !other.left.red) && (other.right == null || !other.right.red) {
        PaintSib(other, true, c, t);
        h' := SibBlack(c, t, h);
        ghost var c1 := WithSib(c, c.tag, Paint(c.left, true));
        c', t' := c.up, Whole(c1, t);
        Up(Mem(), node, c1, t);
        Around(Mem(), node, c', t');
        done, next, above := false, parent, parent.parent;
      } else {
        var other := other;
        ghost var c1 := c;
        if other.left == null || !other.left.red {
          TurnNearRight(other, c, t);
          NearRed(c, t, h);
          c1 := NearTurned(c);
          Around(Mem(), node, c1, t);
          other := parent.left;
        }
        TurnFarRight(parent, other, c1, t);
        FarRed(c1, t, h);
        c', t', h' := Top, Plug(c1.up, FarTurned(c1, t)), h;
        Root(Mem(), node, c1.up, FarTurned(c1, t));
        Around(Mem(), node, c', t');
        PlugTop(t');
        done, next, above := true, node, null;
      }
    }

    /** __rb_erase_color: the subtree t at node, below parent, lacks one black node. */
    method EraseColor(node: Task?, parent: Task?, ghost c: C, ghost t: T, ghost h: nat) returns (ghost t': T)
      requires EraseInv(c, t, h) && At(c, t) && node == Ptr(t) && parent == ParentOf(c)
      modifies this`node, space`left, space`right, space`parent, space`red
      ensures At(Top, t') && Balanced(t') && InOrder(t') == InOrder(Plug(c, t))
    {
      hide Holds, RB, RBCtx, InOrder, Plug;
      var node, parent := node, parent;
      ghost var c1, t1, h1 := c, t, h;
      var done := false;
      Around(Mem(), this.node, c1, t1);
      RootIs(Mem(), this.node, c1, t1);
      while !done && (node == null || !node.red) && node != this.node
        invariant At(c1, t1) && node == Ptr(t1) && parent == ParentOf(c1) && (node != null ==> node.red == t1.tag)
        invariant done ==> c1.Top? && t1.Node? && Balanced(t1)
        invariant !done ==> EraseInv(c1, t1, h1) && (node == this.node <==> c1.Top?)
        invariant node != null ==> node in space
        invariant InOrder(Plug(c1, t1)) == InOrder(Plug(c, t))
        decreases !done, !IsRed(t1), Depth(c1)
      {
        Around(Mem(), this.node, c1, t1);
        SibThere(c1, t1, h1);
        if parent.left == node {
          done, node, parent, c1, t1, h1 := EraseFixLeft(parent, c1, t1, h1);
        } else {
          done, node, parent, c1, t1, h1 := EraseFixRight(parent, c1, t1, h1);
        }
        Around(Mem(), this.node, c1, t1);
        RootIs(Mem(), this.node, c1, t1);
      }
      if done {
        SetColor(node, false, c1, t1);
        t' := t1;
        PlugTop(t1);
      } else {
        EraseDone(c1, t1, h1);
        if node != null {
          SetColor(node, false, c1, t1);
          t1 := Paint(t1, false);
        }
        Root(Mem(), this.node, c1, t1);
        t' := Plug(c1, t1);
      }
    }

    /** rb_erase, a node with at most one child: link the child to the parent. */
    method LinkOut(node: Task, child: Task?, parent: Task?)
      requires node in space && parent == node.parent && {child, parent} <= space + {null}
      requires parent != null ==> parent != child
      modifies this`node, space`left, space`right, space`parent
      ensures var m, m' := old(Mem()), Mem();
              && Except(m, m', {child, parent})
              && (child != null ==> m'[child] == m[child].(parent := parent))
              && (parent != null ==> m'[parent] == if m[parent].left == node then m[parent].(left := child) else m[parent].(right := child))
              && this.node == if parent == null then child else old(this.node)
    {
      if child != null {
        child.parent := parent;
      }
      if parent != null {
        if parent.left == node {
          parent.left := child;
        } else {
          parent.right := child;
        }
      } else {
        this.node := child;
      }
    }

    /** rb_erase, a node with two children: its parent's link, or the root, goes to its successor. */
    method LinkUp(was: Task, node: Task)
      requires was in space && (was.parent != null ==> was.parent in space && was.parent != was)
      modifies this`node, space`left, space`right
      ensures Mem() == LinkedUp(old(Mem()), was, node)
      ensures this.node == if was.parent == null then node else old(this.node)
    {
      if was.parent != null {
        if was.parent.left == was {
          was.parent.left := node;
        } else {
          was.parent.right := node;
        }
      } else {
        this.node := node;
      }
    }

    /** The successor leaves its own place, unless it is there already, and gets the node's right child ... */
    method LeavePlace(was: Task, node: Task, child: Task?, parent: Task)
      requires {was, was.right, node, child, parent} <= space + {null} && was.right != null
      requires was != parent && node !in {child, parent, was, was.right} && child !in {parent, was, was.right} && was.right != was
      modifies space`left, space`right, space`parent
      ensures LeftPlace(old(Mem()), Mem(), old(was.right), node, child, parent)
    {
      if child != null {
        child.parent := parent;
      }
      parent.left := child;
      node.right := was.right;
      was.right.parent := node;
    }

    /** ... and then the node's parent, colour and left child. */
    method Inherit(was: Task, node: Task)
      requires was.left != null && was != node && was.left !in {was, node} && {was, node, was.left} <= space
      modifies space`left, space`parent, space`red
      ensures Inherited(old(Mem()), Mem(), was, node, old(was.left))
    {
      node.parent, node.red := was.parent, was.red;
      node.left := was.left;
      was.left.parent := node;
    }

    /** rb_erase, for a node with two children, up to the rebalancing. */
    method MoveSuccessor(node: Task, ghost c: C, ghost t: T)
      returns (child: Task?, parent: Task, red: bool, ghost sp: C, ghost s: T)
      requires At(c, t) && t.Node? && t.n == node && t.left.Node? && t.right.Node?
      modifies this`node, space`left, space`right, space`parent, space`red
      ensures s.Node? && s.left.Leaf? && Plug(sp, s) == t.right && Before(sp) == []
      ensures At(SuccCtx(c, t.left, s.n, t.tag, sp), s.right)
      ensures child == Ptr(s.right) && parent == ParentOf(SuccCtx(c, t.left, s.n, t.tag, sp)) && red == s.tag
    {
      hide Holds, InOrder, Plug, Nodes, CtxNodes;
      var was := node;
      ghost var b := InRight(c, t.left, was, t.tag);
      Up(Mem(), this.node, b, t.right);
      Around(Mem(), this.node, c, t);
      sp, s := Top, t.right;
      Around(Mem(), this.node, b, s);
      PlugTop(t.right);
      var node := was.right;
      while node.left != null
        invariant At(Append(sp, b), s) && s.Node? && s.n == node && Plug(sp, s) == t.right && Before(sp) == [] && !sp.InRight?
        invariant node in space && node.left == Ptr(s.left)
        decreases s
      {
        ghost var sp' := InLeft(sp, s.n, s.tag, s.right);
        Up(Mem(), this.node, Append(sp', b), s.left);
        PlugLeft(sp, s);
        sp, s := sp', s.left;
        node := node.left;
        Around(Mem(), this.node, Append(sp, b), s);
      }
      child, parent, red := TakePlace(was, node, c, t, sp, s);
    }

    method TakePlace(was: Task, node: Task, ghost c: C, ghost t: T, ghost sp: C, ghost s: T)
      returns (child: Task?, parent: Task, red: bool)
      requires t.Node? && t.n == was && t.left.Node? && t.right.Node? && At(SuccCtx(c, t.left, was, t.tag, sp), s)
      requires s.Node? && s.n == node && s.left.Leaf? && !sp.InRight?
      modifies this`node, space`left, space`right, space`parent, space`red
      ensures At(SuccCtx(c, t.left, node, t.tag, sp), s.right)
      ensures child == Ptr(s.right) && parent == ParentOf(SuccCtx(c, t.left, node, t.tag, sp)) && red == s.tag
    {
      hide Holds, Plug, InPlace, SplicedOut, LinkedUp;
      ghost var m := Mem();
      ghost var k := PlacesOf(m, this.node, c, t.left, was, t.tag, sp, s);
      child, parent, red := MoveCells(was, node, k, t.tag, s.tag);
      TookPlace(m, Mem(), old(this.node), this.node, c, t.left, was, t.tag, sp, s);
    }

    /** The stores of rb_erase that move a node to the place of another. */
    method MoveCells(was: Task, node: Task, ghost k: Places, ghost x: bool, ghost nx: bool)
      returns (child: Task?, parent: Task, red: bool)
      requires k.In(Mem(), x, nx) && k.was == was && k.node == node
      modifies this`node, space`left, space`right, space`parent, space`red
      ensures InPlace(SplicedOut(old(Mem()), node), Mem(), was, node)
      ensures this.node == if k.p == null then node else old(this.node)
      ensures child == k.ch && parent == (if k.q == was then node else k.q) && red == nx
    {
      hide InPlace, SplicedOut, LeftPlace, Inherited, LinkedUp;
      ghost var m := Mem();
      LinkUp(was, node);
      Kept(k, x, nx, m, Mem());
      child := node.right;
      parent := node.parent;
      red := node.red;
      if parent == was {
        parent := node;
        Inherit(was, node);
        Moved1(k, x, nx, m, Mem());
      } else {
        LeavePlace(was, node, child, parent);
        ghost var m2 := Mem();
        Kept(k, x, nx, m, m2);
        Inherit(was, node);
        Moved2(k, x, nx, m, m2, Mem());
      }
    }

    /** rb_erase. */
    method Erase(node: Task)
      requires Valid() && node in Nodes(tree)
      modifies this`node, this`tree, space`left, space`right, space`parent, space`red
      ensures Valid() && InOrder(tree) == Without(old(InOrder(tree)), node)
    {
      hide Holds, RB, RBCtx, InOrder, Plug, Without;
      var child, parent, red;
      ghost var c, t, h;
      child, parent, red, c, t, h := Detach(node);
      if !red {
        tree := EraseColor(child, parent, c, t, h);
      } else {
        Root(Mem(), this.node, c, t);
        tree := Plug(c, t);
      }
    }

    /** rb_erase up to the rebalancing: afterwards the subtree t below parent is one black node
        short, unless the node taken from that place was red. */
    method Detach(node: Task) returns (child: Task?, parent: Task?, red: bool, ghost c': C, ghost t': T, ghost h: nat)
      requires Valid() && node in Nodes(tree)
      modifies this`node, space`left, space`right, space`parent, space`red
      ensures At(c', t') && child == Ptr(t') && parent == ParentOf(c')
      ensures if red then Balanced(Plug(c', t')) else EraseInv(c', t', h)
      ensures InOrder(Plug(c', t')) == Without(InOrder(tree), node)
    {
      hide Holds, RB, RBCtx, InOrder, Plug, Without;
      ghost var c, t := Locate(Top, tree, node);
      PlugTop(tree);
      Separate(Mem(), this.node, Top, tree);
      Root(Mem(), this.node, c, t);
      Around(Mem(), this.node, c, t);
      if node.left == null || node.right == null {
        child := if node.left == null then node.right else node.left;
        parent := node.parent;
        red := node.red;
        c', t' := c, if t.left.Leaf? then t.right else t.left;
        OneChild(Mem(), this.node, c, t, t');
        ghost var m := Mem();
        LinkOut(node, child, parent);
        LinkedOut(m, Mem(), old(this.node), this.node, c, t, t');
        h := TakenOut(c, t, t');
      } else {
        ghost var sp, s;
        child, parent, red, sp, s := MoveSuccessor(node, c, t);
        c', t' := SuccCtx(c, t.left, s.n, t.tag, sp), s.right;
        h := MovedOut(c, t, sp, s);
      }
    }

    /** rb_link_node: node becomes a red leaf at an empty place. */
    method LinkNode(node: Task, parent: Task?, link: Link, ghost c: C)
      requires At(c, Leaf) && node in space && node !in CtxNodes(c) && parent == ParentOf(c) && LinkOf(c) == link
      modifies this`node, space`left, space`right, space`parent, space`red
      ensures At(c, Node(Leaf, node, true, Leaf))
    {
      Around(Mem(), this.node, c, Leaf);
      if !c.Top? { assert c.n in CtxNodes(c); }
      ghost var m := Mem();
      node.parent, node.red := parent, true;
      node.left, node.right := null, null;
      match link {
        case AtRoot => this.node := node;
        case AtLeft(p) => p.left := node;
        case AtRight(p) => p.right := node;
      }
      Relink(m, Mem(), c, null, old(this.node), node, this.node, {node, ParentOf(c)});
      assert Mem()[node] == Cell(null, null, parent, true);
      ghost var t := Node(Leaf, node, true, Leaf);
      assert Nodes(t) == {node} && Distinct(t) && Rep(Mem(), t, parent);
    }

    /** rb_first. */
    method First() returns (n: Task?)
      requires Valid()
      ensures if InOrder(tree) == [] then n == null else n == InOrder(tree)[0] && n in Nodes(tree)
    {
      ghost var c, t: T := Top, tree;
      Around(Mem(), node, c, t);
      n := node;
      if n == null {
        return;
      }
      while n.left != null
        invariant At(c, t) && t.Node? && t.n == n && n.left == Ptr(t.left)
        invariant Before(c) == [] && Plug(c, t) == tree
        decreases t
      {
        ghost var c' := InLeft(c, t.n, t.tag, t.right);
        Up(Mem(), node, c', t.left);
        Around(Mem(), node, c', t.left);
        c, t := c', t.left;
        n := n.left;
      }
      SpineOrder(c, t);
      PlugNodes(c, t);
    }

    /** rb_set_red, rb_set_black, rb_set_color. */
    method SetColor(n: Task, red: bool, ghost c: C, ghost t: T)
      requires At(c, t) && t.Node? && t.n == n && n in space
      modifies n`red
      ensures At(c, Paint(t, red))
    {
      ghost var m := Mem();
      n.red := red;
      Recolored(m, Mem(), node, c, t, red);
    }
  }

  /** What the records at and around the focus hold. */
  lemma {:induction false} Around(m: Mem, root: Task?, c: C, t: T)
    requires Holds(m, root, c, t)
    ensures c.Top? ==> root == Ptr(t)
    ensures t.Node? ==> t.n in m && m[t.n] == Cell(Ptr(t.left), Ptr(t.right), ParentOf(c), t.tag)
    ensures !c.Top? ==> c.n in m && m[c.n].parent == ParentOf(c.up) && m[c.n].red == c.tag
    ensures !c.Top? && Sib(c).Node? ==> Sib(c).n in m && m[Sib(c).n].red == Sib(c).tag
    ensures c.InLeft? ==> m[c.n].left == Ptr(t) && m[c.n].right == Ptr(c.right)
    ensures c.InRight? ==> m[c.n].right == Ptr(t) && m[c.n].left == Ptr(c.left)
    ensures !c.Top? && (t.Node? || Sib(c).Node?) ==> Ptr(Sib(c)) != Ptr(t)
  {
    if !c.Top? && Sib(c).Node? && t.Node? { assert Sib(c).n in CtxNodes(c) && t.n in Nodes(t); }
  }

  /** The children of the sibling of the focus. */
  lemma {:induction false} Nephews(m: Mem, root: Task?, c: C, t: T)
    requires Holds(m, root, c, t) && !c.Top? && Sib(c).Node?
    ensures var s := Sib(c);
            && s.n in m && m[s.n].left == Ptr(s.left) && m[s.n].right == Ptr(s.right)
            && (s.left.Node? ==> s.left.n in m && m[s.left.n].red == s.left.tag)
            && (s.right.Node? ==> s.right.n in m && m[s.right.n].red == s.right.tag)
  {
    assert Rep(m, Sib(c), c.n);
    assert Rep(m, Sib(c).left, Sib(c).n) && Rep(m, Sib(c).right, Sib(c).n);
  }

  /** The root pointer leads to the focus exactly when nothing is above it. */
  lemma {:induction false} RootIs(m: Mem, root: Task?, c: C, t: T)
    requires Holds(m, root, c, t)
    ensures root == Ptr(t) <==> c.Top?
  {
    if !c.Top? {
      Up(m, root, c, t);
      RootIs(m, root, c.up, Whole(c, t));
      RootAbove(m, c, Ptr(t), root);
      if t.Node? { assert t.n in Nodes(t); }
    }
  }

  lemma {:induction false} RootAbove(m: Mem, c: C, hole: Task?, root: Task?)
    requires RepCtx(m, c, hole, root) && !c.Top?
    ensures root != null && root in CtxNodes(c)
  {
    if !c.up.Top? { RootAbove(m, c.up, c.n, root); }
  }

  /** The context of the sibling of the focus. */
  ghost function SibCtx(c: C, t: T): C
    requires !c.Top?
  {
    if c.InLeft? then InRight(c.up, t, c.n, c.tag) else InLeft(c.up, c.n, c.tag, t)
  }

  lemma {:induction false} Flip(m: Mem, root: Task?, c: C, t: T)
    requires !c.Top?
    ensures Holds(m, root, c, t) <==> Holds(m, root, SibCtx(c, t), Sib(c))
  {
    Up(m, root, c, t);
    Up(m, root, SibCtx(c, t), Sib(c));
  }

  /** The whole tree seen from the root. */
  lemma {:induction false} Root(m: Mem, root: Task?, c: C, t: T)
    ensures Holds(m, root, c, t) <==> Holds(m, root, Top, Plug(c, t))
  {
    if !c.Top? {
      Up(m, root, c, t);
      Root(m, root, c.up, Whole(c, t));
    }
  }

  /** The records a left rotation of t writes to are there, and are different ones. */
  lemma {:induction false} TurnLeft(m: Mem, root: Task?, c: C, t: T)
    requires Holds(m, root, c, t) && t.Node? && t.right.Node?
    ensures var n, y, b, p := t.n, t.right.n, Ptr(t.right.left), ParentOf(c);
            && m.Keys >= {n, y} && m[n] == Cell(Ptr(t.left), y, p, t.tag) && m[y] == Cell(b, Ptr(t.right.right), n, t.right.tag)
            && n != y && b !in {n, y} && (b != null ==> b in m)
            && (p != null ==> p in m && p !in {n, y, b} && (m[p].left == n <==> c.InLeft?))
  {
    var r := t.right;
    assert Rep(m, r, t.n) && Distinct(r) && Nodes(r) == Nodes(r.left) + {r.n} + Nodes(r.right);
    assert Rep(m, r.left, r.n);
    if r.left.Node? { assert r.left.n in Nodes(r.left); }
    if c.InRight? && c.left.Node? { assert c.left.n in Nodes(c.left); }
  }

  lemma {:induction false} ApartLeft(c: C, t: T)
    requires Distinct(t) && DistinctCtx(c) && Nodes(t) !! CtxNodes(c) && t.Node? && t.right.Node?
    ensures var w := {t.n, t.right.n, Ptr(t.right.left), ParentOf(c)};
            && (forall k :: k in Nodes(t.left) || k in Nodes(t.right.right) ==> k !in w)
            && (forall k :: k in Nodes(t.right.left) && k != Ptr(t.right.left) ==> k !in w)
            && (forall k :: k in CtxNodes(c) && k != ParentOf(c) ==> k !in w)
  {
    var r := t.right;
    assert Distinct(r) && Nodes(r) == Nodes(r.left) + {r.n} + Nodes(r.right);
    assert Nodes(t) == Nodes(t.left) + {t.n} + Nodes(r);
    if r.left.Node? { assert r.left.n in Nodes(r.left); }
    if !c.Top? { assert c.n in CtxNodes(c); }
  }

  lemma {:induction false} TurnedLeft(m: Mem, m': Mem, root: Task?, root': Task?, c: C, t: T)
    requires Holds(m, root, c, t) && t.Node? && t.right.Node?
    requires var n, y, b, p := t.n, t.right.n, Ptr(t.right.left), ParentOf(c);
             && {n, y} <= m.Keys && (b != null ==> b in m) && (p != null ==> p in m)
             && Except(m, m', {n, y, b, p})
             && m'[n] == m[n].(right := b, parent := y)
             && m'[y] == m[y].(left := n, parent := p)
             && (b != null ==> m'[b] == m[b].(parent := n))
             && (p != null ==> m'[p] == if m[p].left == n then m[p].(left := y) else m[p].(right := y))
             && root' == if p == null then y else root
    ensures Holds(m', root', c, RotL(t))
  {
    var n, y, b, p := t.n, t.right.n, Ptr(t.right.left), ParentOf(c);
    var w := {n, y, b, p};
    TurnLeft(m, root, c, t);
    ApartLeft(c, t);
    RotLKeeps(t);
    assert Rep(m, t.right, n) && Distinct(t.right);
    Relink(m, m', c, n, root, y, root', w);
    Frame(m, m', t.left, n, w);
    Frame(m, m', t.right.right, y, w);
    Reparent(m, m', t.right.left, y, n, w);
  }

  /** The records a right rotation of t writes to are there, and are different ones. */
  lemma {:induction false} TurnRight(m: Mem, root: Task?, c: C, t: T)
    requires Holds(m, root, c, t) && t.Node? && t.left.Node?
    ensures var n, y, b, p := t.n, t.left.n, Ptr(t.left.right), ParentOf(c);
            && m.Keys >= {n, y} && m[n] == Cell(y, Ptr(t.right), p, t.tag) && m[y] == Cell(Ptr(t.left.left), b, n, t.left.tag)
            && n != y && b !in {n, y} && (b != null ==> b in m)
            && (p != null ==> p in m && p !in {n, y, b} && (m[p].right == n <==> c.InRight?))
  {
    var r := t.left;
    assert Rep(m, r, t.n) && Distinct(r) && Nodes(r) == Nodes(r.left) + {r.n} + Nodes(r.right);
    assert Rep(m, r.right, r.n);
    if r.right.Node? { assert r.right.n in Nodes(r.right); }
    if c.InLeft? && c.right.Node? { assert c.right.n in Nodes(c.right); }
  }

  lemma {:induction false} ApartRight(c: C, t: T)
    requires Distinct(t) && DistinctCtx(c) && Nodes(t) !! CtxNodes(c) && t.Node? && t.left.Node?
    ensures var w := {t.n, t.left.n, Ptr(t.left.right), ParentOf(c)};
            && (forall k :: k in Nodes(t.right) || k in Nodes(t.left.left) ==> k !in w)
            && (forall k :: k in Nodes(t.left.right) && k != Ptr(t.left.right) ==> k !in w)
            && (forall k :: k in CtxNodes(c) && k != ParentOf(c) ==> k !in w)
  {
    var r := t.left;
    assert Distinct(r) && Nodes(r) == Nodes(r.left) + {r.n} + Nodes(r.right);
    assert Nodes(t) == Nodes(r) + {t.n} + Nodes(t.right);
    if r.right.Node? { assert r.right.n in Nodes(r.right); }
    if !c.Top? { assert c.n in CtxNodes(c); }
  }

  lemma {:induction false} TurnedRight(m: Mem, m': Mem, root: Task?, root': Task?, c: C, t: T)
    requires Holds(m, root, c, t) && t.Node? && t.left.Node?
    requires var n, y, b, p := t.n, t.left.n, Ptr(t.left.right), ParentOf(c);
             && {n, y} <= m.Keys && (b != null ==> b in m) && (p != null ==> p in m)
             && Except(m, m', {n, y, b, p})
             && m'[n] == m[n].(left := b, parent := y)
             && m'[y] == m[y].(right := n, parent := p)
             && (b != null ==> m'[b] == m[b].(parent := n))
             && (p != null ==> m'[p] == if m[p].right == n then m[p].(right := y) else m[p].(left := y))
             && root' == if p == null then y else root
    ensures Holds(m', root', c, RotR(t))
  {
    var n, y, b, p := t.n, t.left.n, Ptr(t.left.right), ParentOf(c);
    var w := {n, y, b, p};
    TurnRight(m, root, c, t);
    ApartRight(c, t);
    RotRKeeps(t);
    assert Rep(m, t.left, n) && Distinct(t.left);
    Relink(m, m', c, n, root, y, root', w);
    Frame(m, m', t.right, n, w);
    Frame(m, m', t.left.left, y, w);
    Reparent(m, m', t.left.right, y, n, w);
  }

  /** The records rb_erase writes to when it moves `node` to the place of `was`. */
  datatype Places = Places(was: Task, p: Task?, l: Task, r: Task, node: Task, q: Task, ch: Task?)
  {
    ghost predicate In(m: Mem, x: bool, nx: bool) {
      && {was, p, l, r, node, q, ch} <= m.Keys + {null}
      && m[was] == Cell(l, r, p, x) && m[node] == Cell(null, ch, q, nx) && (ch != null ==> m[ch].parent == node)
      && (p != null ==> p !in {was, l, r, node, q, ch})
      && l !in {was, r, node, q, ch} && was !in {node, r, ch} && node !in {q, ch} && ch !in {q, r}
      && (if q == was then r == node else r != node && m[q].left == node)
    }
  }

  /** The memory after a node without a left child has been taken out. */
  ghost function SplicedOut(m: Mem, n: Task): Mem
    requires n in m && m[n].parent in m && (m[n].right != null ==> m[n].right in m)
  {
    var q, ch := m[n].parent, m[n].right;
    var m1 := if ch != null then m[ch := m[ch].(parent := q)] else m;
    m1[q := if m[q].left == n then m1[q].(left := ch) else m1[q].(right := ch)]
  }

  /** m' is m but with node in the place of was. */
  ghost predicate InPlace(m: Mem, m': Mem, was: Task, node: Task) {
    was in m && node in m &&
    var l, r, p := m[was].left, m[was].right, m[was].parent;
    && Except(m, m', {was, node, l, r, p}) && m'[node] == m[was]
    && (l != null ==> l in m && m'[l] == m[l].(parent := node))
    && (r != null ==> r in m && m'[r] == m[r].(parent := node))
    && (p != null ==> p in m && m'[p] == if m[p].left == was then m[p].(left := node) else m[p].(right := node))
  }

  ghost predicate LeftPlace(m: Mem, m': Mem, r: Task?, node: Task, ch: Task?, q: Task) {
    && {r, node, q, ch} <= m.Keys + {null} && r != null && Except(m, m', {ch, q, node, r})
    && m'[node] == m[node].(right := r) && (ch != null ==> m'[ch] == m[ch].(parent := q))
    && if q == r then m'[q] == m[q].(left := ch, parent := node)
       else m'[q] == m[q].(left := ch) && m'[r] == m[r].(parent := node)
  }

  ghost predicate Inherited(m: Mem, m': Mem, was: Task, node: Task, l: Task?) {
    && {was, node, l} <= m.Keys && l != null && Except(m, m', {node, l})
    && m'[node] == m[was].(right := m[node].right) && m'[l] == m[l].(parent := node)
  }

  lemma {:induction false} Moved1(k: Places, x: bool, nx: bool, m: Mem, m': Mem)
    requires k.In(m, x, nx) && k.q == k.was && Inherited(LinkedUp(m, k.was, k.node), m', k.was, k.node, k.l)
    ensures InPlace(SplicedOut(m, k.node), m', k.was, k.node)
  {}

  lemma {:induction false} Moved2(k: Places, x: bool, nx: bool, m: Mem, b: Mem, m': Mem)
    requires k.In(m, x, nx) && k.q != k.was
    requires LeftPlace(LinkedUp(m, k.was, k.node), b, k.r, k.node, k.ch, k.q) && Inherited(b, m', k.was, k.node, k.l)
    ensures InPlace(SplicedOut(m, k.node), m', k.was, k.node)
  {
    if k.q == k.r {} else {}
  }

  /** The node whose place is taken is not written to. */
  lemma {:induction false} Kept(k: Places, x: bool, nx: bool, m: Mem, b: Mem)
    requires k.In(m, x, nx)
    requires var a := LinkedUp(m, k.was, k.node); b == a || (k.q != k.was && LeftPlace(a, b, k.r, k.node, k.ch, k.q))
    ensures k.was in b && b[k.was] == m[k.was] && b.Keys == m.Keys
    ensures LinkedUp(m, k.was, k.node)[k.node] == m[k.node]
  {}

  lemma {:induction false} Replaced(m: Mem, m': Mem, root: Task?, root': Task?, c: C, t: T, node: Task)
    requires Holds(m, root, c, t) && t.Node? && node !in Nodes(t) && node !in CtxNodes(c)
    requires InPlace(m, m', t.n, node) && root' == if c.Top? then node else root
    ensures Holds(m', root', c, Node(t.left, node, t.tag, t.right))
  {
    var w := {t.n, node, Ptr(t.left), Ptr(t.right), ParentOf(c)};
    Around(m, root, c, t);
    Relink(m, m', c, t.n, root, node, root', w);
    Reparent(m, m', t.left, t.n, node, w);
    Reparent(m, m', t.right, t.n, node, w);
  }

  lemma {:induction false} PlacesOf(m: Mem, root: Task?, c: C, l: T, was: Task, x: bool, sp: C, t: T) returns (k: Places)
    requires Holds(m, root, SuccCtx(c, l, was, x, sp), t) && l.Node? && t.Node? && t.left.Leaf? && !sp.InRight?
    ensures k == Places(was, ParentOf(c), l.n, k.r, t.n, k.q, Ptr(t.right))
    ensures k.r == Ptr(Plug(sp, t)) && k.q == (if sp.Top? then was else sp.n) && (k.q == was <==> sp.Top?)
    ensures k.In(m, x, t.tag)
  {
    var cx, b, rt := SuccCtx(c, l, was, x, sp), InRight(c, l, was, x), Plug(sp, t);
    PlugNodes(sp, t);
    Along(m, root, sp, b, t);
    Up(m, root, b, rt);
    Around(m, root, cx, t);
    Around(m, root, c, Whole(b, rt));
    k := Places(was, ParentOf(c), l.n, rt.n, t.n, if sp.Top? then was else sp.n, Ptr(t.right));
    assert Rep(m, t, k.q) && Rep(m, t.right, t.n) && l.n in Nodes(l) && t.n in Nodes(t);
    if t.right.Node? { assert t.right.n in Nodes(t.right); }
    if !sp.Top? { assert sp.n in CtxNodes(sp); }
    if !c.Top? { assert c.n in CtxNodes(c); }
  }

  /** After its successor has left its own place and taken that of `was`. */
  lemma {:induction false} TookPlace(m: Mem, m': Mem, root: Task?, root': Task?, c: C, l: T, was: Task, x: bool, sp: C, t: T)
    requires Holds(m, root, SuccCtx(c, l, was, x, sp), t) && l.Node? && t.Node? && t.left.Leaf? && !sp.InRight?
    requires t.n in m && m[t.n].parent in m && (m[t.n].right != null ==> m[t.n].right in m)
    requires InPlace(SplicedOut(m, t.n), m', was, t.n) && root' == if c.Top? then t.n else root
    ensures Holds(m', root', SuccCtx(c, l, t.n, x, sp), t.right)
  {
    var cx, b, r1 := SuccCtx(c, l, was, x, sp), InRight(c, l, was, x), Plug(sp, t.right);
    var m1 := SplicedOut(m, t.n);
    Around(m, root, cx, t);
    OneChild(m, root, cx, t, t.right);
    LinkedOut(m, m1, root, root, cx, t, t.right);
    Along(m1, root, sp, b, t.right);
    Up(m1, root, b, r1);
    Fresh(m, root, c, l, was, x, sp, t);
    Replaced(m1, m', root, root', c, Whole(b, r1), t.n);
    Up(m', root', InRight(c, l, t.n, x), r1);
    Along(m', root', sp, InRight(c, l, t.n, x), t.right);
  }

  lemma {:induction false} Separate(m: Mem, root: Task?, c: C, t: T)
    requires Holds(m, root, c, t)
    ensures Distinct(t)
  {}

  lemma {:induction false} OneChild(m: Mem, root: Task?, c: C, t: T, t': T)
    requires Holds(m, root, c, t) && t.Node? && t' in {t.left, t.right}
    ensures t'.Node? ==> t'.n in m && t'.n != ParentOf(c)
  {
    assert Rep(m, t', t.n);
    if t'.Node? && !c.Top? { assert t'.n in Nodes(t') && c.n in CtxNodes(c); }
  }

  lemma {:induction false} Fresh(m: Mem, root: Task?, c: C, l: T, was: Task, x: bool, sp: C, t: T)
    requires Holds(m, root, SuccCtx(c, l, was, x, sp), t) && t.Node?
    ensures t.n !in Nodes(Node(l, was, x, Plug(sp, t.right))) && t.n !in CtxNodes(c)
  {
    var b, rt := InRight(c, l, was, x), Plug(sp, t);
    PlugNodes(sp, t);
    PlugNodes(sp, t.right);
    AppendNodes(sp, b);
    assert t.n in Nodes(t);
  }

  ghost function LinkedUp(m: Mem, was: Task, node: Task): Mem
    requires was in m && (m[was].parent != null ==> m[was].parent in m)
  {
    var p := m[was].parent;
    if p == null then m else m[p := if m[p].left == was then m[p].(left := node) else m[p].(right := node)]
  }

  /** A node with at most one child is taken out. */
  lemma {:induction false} LinkedOut(m: Mem, m': Mem, root: Task?, root': Task?, c: C, t: T, t': T)
    requires Holds(m, root, c, t) && t.Node? && (t.left.Leaf? || t.right.Leaf?) && t' == (if t.left.Leaf? then t.right else t.left)
    requires var n, p, q := t.n, ParentOf(c), Ptr(t');
             && Except(m, m', {q, p}) && (q != null ==> q in m) && (p != null ==> p in m)
             && (q != null ==> m'[q] == m[q].(parent := p))
             && (p != null ==> m'[p] == if m[p].left == n then m[p].(left := q) else m[p].(right := q))
             && root' == if p == null then q else root
    ensures Holds(m', root', c, t')
  {
    var w := {Ptr(t'), ParentOf(c)};
    Around(m, root, c, t);
    Relink(m, m', c, t.n, root, Ptr(t'), root', w);
    Reparent(m, m', t', t.n, ParentOf(c), w);
  }

  lemma {:induction false} Recolored(m: Mem, m': Mem, root: Task?, c: C, t: T, red: bool)
    requires Holds(m, root, c, t) && t.Node? && t.n in m
    requires m' == m[t.n := m[t.n].(red := red)]
    ensures Holds(m', root, c, Paint(t, red))
  {
    Frame(m, m', t.left, t.n, {t.n});
    Frame(m, m', t.right, t.n, {t.n});
    FrameCtx(m, m', c, t.n, root, {t.n});
  }
}
