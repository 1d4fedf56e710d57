/** In-order walks over a red-black tree by its links alone: rb_next and rb_prev of lib/rbtree.c. */
module RbWalk {
  import opened Zipper
  import opened RbMemory
  import opened RbBalance
  import opened RbTree

  /** n stands at position i of s and next after it; null past the end. */
  ghost predicate Follows(s: seq<Task>, i: nat, n: Task, next: Task?) {
    i < |s| && s[i] == n && next == if i + 1 < |s| then s[i + 1] else null
  }

  ghost predicate Precedes(s: seq<Task>, i: nat, n: Task, prev: Task?) {
    i < |s| && s[i] == n && prev == if i > 0 then s[i - 1] else null
  }

  /** n is the last record up to the end of t. */
  ghost predicate Ends(c: C, t: T, n: Task) {
    var s := Before(c) + InOrder(t);
    s != [] && s[|s| - 1] == n
  }

  /** n is the first record from the start of t on. */
  ghost predicate Starts(c: C, t: T, n: Task) {
    var s := InOrder(t) + After(c);
    s != [] && s[0] == n
  }

  lemma {:induction false} Descend(m: Mem, root: Task?, c: C, t: T)
    requires Holds(m, root, c, t) && t.Node?
    ensures var cl := InLeft(c, t.n, t.tag, t.right); Holds(m, root, cl, t.left) && Plug(cl, t.left) == Plug(c, t)
    ensures var cr := InRight(c, t.left, t.n, t.tag); Holds(m, root, cr, t.right) && Plug(cr, t.right) == Plug(c, t)
  {
    Up(m, root, InLeft(c, t.n, t.tag, t.right), t.left);
    Up(m, root, InRight(c, t.left, t.n, t.tag), t.right);
  }

  /** Goes left as far as possible. */
  method Leftmost(start: Task, ghost rb: RbRoot, ghost c0: C, ghost t0: T) returns (n: Task, ghost c: C, ghost t: T)
    requires rb.At(c0, t0) && t0.Node? && t0.n == start
    ensures t.Node? && t.n == n && t.left.Leaf? && Plug(c, t) == Plug(c0, t0) && Before(c) == Before(c0)
  {
    hide Plug, Holds, InOrder;
    c, t, n := c0, t0, start;
    Around(rb.Mem(), rb.node, c, t);
    while n.left != null
      invariant rb.At(c, t) && t.Node? && t.n == n && n.left == Ptr(t.left)
      invariant Before(c) == Before(c0) && Plug(c, t) == Plug(c0, t0)
      decreases t
    {
      Descend(rb.Mem(), rb.node, c, t);
      c, t := InLeft(c, t.n, t.tag, t.right), t.left;
      n := n.left;
      Around(rb.Mem(), rb.node, c, t);
    }
  }

  /** Goes right as far as possible. */
  method Rightmost(start: Task, ghost rb: RbRoot, ghost c0: C, ghost t0: T) returns (n: Task, ghost c: C, ghost t: T)
    requires rb.At(c0, t0) && t0.Node? && t0.n == start
    ensures t.Node? && t.n == n && t.right.Leaf? && Plug(c, t) == Plug(c0, t0) && After(c) == After(c0)
  {
    hide Plug, Holds, InOrder;
    c, t, n := c0, t0, start;
    Around(rb.Mem(), rb.node, c, t);
    while n.right != null
      invariant rb.At(c, t) && t.Node? && t.n == n && n.right == Ptr(t.right)
      invariant After(c) == After(c0) && Plug(c, t) == Plug(c0, t0)
      decreases t
    {
      Descend(rb.Mem(), rb.node, c, t);
      c, t := InRight(c, t.left, t.n, t.tag), t.right;
      n := n.right;
      Around(rb.Mem(), rb.node, c, t);
    }
  }

  lemma {:induction false} FollowsAt(a: seq<Task>, n: Task, b: seq<Task>, next: Task?)
    requires next == if b == [] then null else b[0]
    ensures Follows(a + [n] + b, |a|, n, next)
  {
  }

  lemma {:induction false} PrecedesAt(a: seq<Task>, n: Task, b: seq<Task>, prev: Task?)
    requires prev == if a == [] then null else a[|a| - 1]
    ensures Precedes(a + [n] + b, |a|, n, prev)
  {
  }

  lemma {:induction false} GroupRight(a: seq<Task>, x: Task, b: seq<Task>, d: seq<Task>)
    ensures a + ([] + [x] + b) + d == a + ([x] + b + d)
  {
  }

  lemma {:induction false} GroupLeft(a: seq<Task>, b: seq<Task>, x: Task, n: Task, d: seq<Task>, e: seq<Task>)
    ensures a + (b + [x] + []) + ([n] + d + e) == (a + b + [x]) + [n] + (d + e)
  {
  }

  /** The first record of n's right subtree comes after n. */
  lemma {:induction false} NextBelow(c: C, t: T, c': C, t': T) returns (i: nat)
    requires t.Node? && t'.Node? && t'.left.Leaf? && Plug(c, t) == Plug(c', t')
    requires Before(c') == Before(c) + InOrder(t.left) + [t.n]
    ensures Follows(InOrder(Plug(c, t)), i, t.n, t'.n)
  {
    PlugInOrder(c', t');
    var a, b := Before(c) + InOrder(t.left), [t'.n] + InOrder(t'.right) + After(c');
    GroupRight(a + [t.n], t'.n, InOrder(t'.right), After(c'));
    i := |a|;
    FollowsAt(a, t.n, b, t'.n);
  }

  lemma {:induction false} PrevBelow(c: C, t: T, c': C, t': T) returns (i: nat)
    requires t.Node? && t'.Node? && t'.right.Leaf? && Plug(c, t) == Plug(c', t')
    requires After(c') == [t.n] + InOrder(t.right) + After(c)
    ensures Precedes(InOrder(Plug(c, t)), i, t.n, t'.n)
  {
    PlugInOrder(c', t');
    var a, b := Before(c') + InOrder(t'.left) + [t'.n], InOrder(t.right) + After(c);
    GroupLeft(Before(c'), InOrder(t'.left), t'.n, t.n, InOrder(t.right), After(c));
    i := |a|;
    PrecedesAt(a, t.n, b, t'.n);
  }

  /** Where the climb ends, the parent comes after n; at the root nothing does. */
  lemma {:induction false} NextAbove(c: C, t: T, n: Task) returns (i: nat)
    requires Ends(c, t, n) && !c.InRight?
    ensures Follows(InOrder(Plug(c, t)), i, n, ParentOf(c))
  {
    PlugInOrder(c, t);
    var s := Before(c) + InOrder(t);
    i := |s| - 1;
    assert s == s[..i] + [n];
    FollowsAt(s[..i], n, After(c), ParentOf(c));
  }

  lemma {:induction false} PrevAbove(c: C, t: T, n: Task) returns (i: nat)
    requires Starts(c, t, n) && !c.InLeft?
    ensures Precedes(InOrder(Plug(c, t)), i, n, ParentOf(c))
  {
    PlugInOrder(c, t);
    var s := InOrder(t) + After(c);
    i := |Before(c)|;
    HeadApart(Before(c), InOrder(t), After(c));
    assert c.InRight? ==> Before(c) == Before(c.up) + InOrder(c.left) + [c.n];
    hide InOrder, Before, After, Plug;
    PrecedesAt(Before(c), n, s[1..], ParentOf(c));
  }

  lemma {:induction false} HeadApart(a: seq<Task>, x: seq<Task>, b: seq<Task>)
    requires x + b != []
    ensures a + x + b == a + [(x + b)[0]] + (x + b)[1..]
  {
    assert x + b == [(x + b)[0]] + (x + b)[1..];
    assert a + x + b == a + (x + b);
  }

  lemma {:induction false} ClimbRight(c: C, t: T, n: Task)
    requires Ends(c, t, n) && c.InRight?
    ensures Ends(c.up, Whole(c, t), n)
  {
    assert Before(c.up) + InOrder(Whole(c, t)) == Before(c) + InOrder(t);
  }

  lemma {:induction false} ClimbLeft(c: C, t: T, n: Task)
    requires Starts(c, t, n) && c.InLeft?
    ensures Starts(c.up, Whole(c, t), n)
  {
    assert InOrder(Whole(c, t)) + After(c.up) == InOrder(t) + After(c);
  }

  lemma {:induction false} AtEnds(c: C, t: T)
    requires t.Node?
    ensures t.right.Leaf? ==> Ends(c, t, t.n)
    ensures t.left.Leaf? ==> Starts(c, t, t.n)
  {
    assert t.left.Leaf? ==> InOrder(t) + After(c) == [t.n] + (InOrder(t.right) + After(c));
  }

  /** Which child of its parent the focus is. */
  lemma {:induction false} ChildSide(m: Mem, root: Task?, c: C, t: T)
    requires Holds(m, root, c, t) && t.Node?
    ensures t.n in m && m[t.n] == Cell(Ptr(t.left), Ptr(t.right), ParentOf(c), t.tag) && ParentOf(c) != t.n
    ensures !c.Top? ==> c.n in m && (m[c.n].right == t.n <==> c.InRight?) && (m[c.n].left == t.n <==> c.InLeft?)
  {
    assert t.n in Nodes(t);
    if !c.Top? {
      assert c.n in CtxNodes(c);
      var s := if c.InLeft? then c.right else c.left;
      assert s.Node? ==> s.n in Nodes(s) && s.n in CtxNodes(c);
    }
  }

  /** rb_next: the record after n in order, or null after the last one. */
  method Next(n: Task, ghost rb: RbRoot) returns (next: Task?)
    requires rb.Valid() && n in Nodes(rb.tree)
    ensures exists i :: Follows(InOrder(rb.tree), i, n, next)
  {
    hide Plug, Holds, Balanced, InOrder, Follows, Before, After, Ends, Nodes;
    ghost var c, t := Locate(Top, rb.tree, n);
    ghost var i;
    AtRoot(rb, c, t);
    ChildSide(rb.Mem(), rb.node, c, t);
    if n.parent == n { return null; }
    if n.right != null {
      Descend(rb.Mem(), rb.node, c, t);
      Unfold(c, t);
      ghost var c', t';
      next, c', t' := Leftmost(n.right, rb, InRight(c, t.left, t.n, t.tag), t.right);
      i := NextBelow(c, t, c', t');
      return;
    }
    AtEnds(c, t);
    var node := n;
    next := node.parent;
    while next != null && node == next.right
      invariant rb.At(c, t) && t.Node? && t.n == node && Plug(c, t) == rb.tree && Ends(c, t, n) && next == ParentOf(c)
      decreases c
    {
      ChildSide(rb.Mem(), rb.node, c, t);
      ClimbRight(c, t, n);
      Up(rb.Mem(), rb.node, c, t);
      PlugUp(c, t);
      c, t := c.up, Whole(c, t);
      ChildSide(rb.Mem(), rb.node, c, t);
      node := next;
      next := node.parent;
    }
    ChildSide(rb.Mem(), rb.node, c, t);
    i := NextAbove(c, t, n);
  }

  /** rb_prev: the record before n in order, or null before the first one. */
  method Prev(n: Task, ghost rb: RbRoot) returns (prev: Task?)
    requires rb.Valid() && n in Nodes(rb.tree)
    ensures exists i :: Precedes(InOrder(rb.tree), i, n, prev)
  {
    hide Plug, Holds, Balanced, InOrder, Precedes, Before, After, Starts, Nodes;
    ghost var c, t := Locate(Top, rb.tree, n);
    ghost var i;
    AtRoot(rb, c, t);
    ChildSide(rb.Mem(), rb.node, c, t);
    if n.parent == n { return null; }
    if n.left != null {
      Descend(rb.Mem(), rb.node, c, t);
      Unfold(c, t);
      ghost var c', t';
      prev, c', t' := Rightmost(n.left, rb, InLeft(c, t.n, t.tag, t.right), t.left);
      i := PrevBelow(c, t, c', t');
      return;
    }
    AtEnds(c, t);
    var node := n;
    prev := node.parent;
    while prev != null && node == prev.left
      invariant rb.At(c, t) && t.Node? && t.n == node && Plug(c, t) == rb.tree && Starts(c, t, n) && prev == ParentOf(c)
      decreases c
    {
      ChildSide(rb.Mem(), rb.node, c, t);
      ClimbLeft(c, t, n);
      Up(rb.Mem(), rb.node, c, t);
      PlugUp(c, t);
      c, t := c.up, Whole(c, t);
      ChildSide(rb.Mem(), rb.node, c, t);
      node := prev;
      prev := node.parent;
    }
    ChildSide(rb.Mem(), rb.node, c, t);
    i := PrevAbove(c, t, n);
  }

  lemma {:induction false} AtRoot(rb: RbRoot, c: C, t: T)
    requires rb.Valid() && Plug(c, t) == Plug(Top, rb.tree)
    ensures rb.At(c, t) && Plug(c, t) == rb.tree
  {
    Root(rb.Mem(), rb.node, c, t);
  }

  lemma {:induction false} Unfold(c: C, t: T)
    requires t.Node?
    ensures Before(InRight(c, t.left, t.n, t.tag)) == Before(c) + InOrder(t.left) + [t.n]
    ensures After(InLeft(c, t.n, t.tag, t.right)) == [t.n] + InOrder(t.right) + After(c)
  {
  }

  lemma {:induction false} PlugUp(c: C, t: T)
    requires !c.Top?
    ensures Plug(c, t) == Plug(c.up, Whole(c, t))
  {
  }
}
