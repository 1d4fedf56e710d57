/** Binary trees of linked records, and the path from the root down to a place in one.

    A `Tree` is the shape that a set of linked records has in memory; a `Ctx` is the same shape
    with one subtree missing. Code that walks from a place towards the root, or stores into one
    place, is described by the pair of a context and the subtree in its hole. */
module Zipper {

  datatype Tree<N, L> = Leaf | Node(left: Tree<N, L>, n: N, tag: L, right: Tree<N, L>)

  datatype Ctx<N, L> =
    | Top
    | InLeft(up: Ctx<N, L>, n: N, tag: L, right: Tree<N, L>)
    | InRight(up: Ctx<N, L>, left: Tree<N, L>, n: N, tag: L)

  ghost function InOrder<N, L>(t: Tree<N, L>): seq<N> {
    match t
    case Leaf => []
    case Node(l, n, _, r) => InOrder(l) + [n] + InOrder(r)
  }

  ghost function Nodes<N, L>(t: Tree<N, L>): set<N> {
    match t
    case Leaf => {}
    case Node(l, n, _, r) => Nodes(l) + {n} + Nodes(r)
  }

  ghost function CtxNodes<N, L>(c: Ctx<N, L>): set<N> {
    match c
    case Top => {}
    case InLeft(up, n, _, r) => CtxNodes(up) + {n} + Nodes(r)
    case InRight(up, l, n, _) => CtxNodes(up) + {n} + Nodes(l)
  }

  ghost function Plug<N, L>(c: Ctx<N, L>, t: Tree<N, L>): Tree<N, L> {
    match c
    case Top => t
    case InLeft(up, n, x, r) => Plug(up, Node(t, n, x, r))
    case InRight(up, l, n, x) => Plug(up, Node(l, n, x, t))
  }

  /** What comes in order before, and after, the hole of a context. */
  ghost function Before<N, L>(c: Ctx<N, L>): seq<N> {
    match c
    case Top => []
    case InLeft(up, _, _, _) => Before(up)
    case InRight(up, l, n, _) => Before(up) + InOrder(l) + [n]
  }

  ghost function After<N, L>(c: Ctx<N, L>): seq<N> {
    match c
    case Top => []
    case InLeft(up, n, _, r) => [n] + InOrder(r) + After(up)
    case InRight(up, _, _, _) => After(up)
  }

  ghost function Depth<N, L>(c: Ctx<N, L>): nat {
    if c.Top? then 0 else 1 + Depth(c.up)
  }

  /** The subtree one level up, and the one beside the hole. */
  ghost function Whole<N, L>(c: Ctx<N, L>, t: Tree<N, L>): Tree<N, L>
    requires !c.Top?
  {
    if c.InLeft? then Node(t, c.n, c.tag, c.right) else Node(c.left, c.n, c.tag, t)
  }

  ghost function Sib<N, L>(c: Ctx<N, L>): Tree<N, L>
    requires !c.Top?
  {
    if c.InLeft? then c.right else c.left
  }

  /** The contexts of the children of t. */
  ghost function ToLeft<N, L>(c: Ctx<N, L>, t: Tree<N, L>): Ctx<N, L>
    requires t.Node?
  {
    InLeft(c, t.n, t.tag, t.right)
  }

  ghost function ToRight<N, L>(c: Ctx<N, L>, t: Tree<N, L>): Ctx<N, L>
    requires t.Node?
  {
    InRight(c, t.left, t.n, t.tag)
  }

  /** No record occurs twice. */
  ghost predicate Distinct<N, L>(t: Tree<N, L>) {
    match t
    case Leaf => true
    case Node(l, n, _, r) =>
      && Distinct(l) && Distinct(r)
      && n !in Nodes(l) && n !in Nodes(r) && Nodes(l) !! Nodes(r)
  }

  ghost predicate DistinctCtx<N, L>(c: Ctx<N, L>) {
    match c
    case Top => true
    case InLeft(up, n, _, r) =>
      && DistinctCtx(up) && Distinct(r)
      && n !in CtxNodes(up) && n !in Nodes(r) && CtxNodes(up) !! Nodes(r)
    case InRight(up, l, n, _) =>
      && DistinctCtx(up) && Distinct(l)
      && n !in CtxNodes(up) && n !in Nodes(l) && CtxNodes(up) !! Nodes(l)
  }

  ghost function RotL<N, L>(t: Tree<N, L>): Tree<N, L>
    requires t.Node? && t.right.Node?
  {
    Node(Node(t.left, t.n, t.tag, t.right.left), t.right.n, t.right.tag, t.right.right)
  }

  ghost function RotR<N, L>(t: Tree<N, L>): Tree<N, L>
    requires t.Node? && t.left.Node?
  {
    Node(t.left.left, t.left.n, t.left.tag, Node(t.left.right, t.n, t.tag, t.right))
  }

  lemma Regroup<N>(a: seq<N>, b: seq<N>, c: seq<N>, d: seq<N>, e: seq<N>)
    ensures a + (b + c + d) + e == a + b + (c + d + e)
    ensures a + (b + c + d) + e == (a + b + c) + d + e
  {}

  /** A rotation keeps the records, their order and their distinctness. */
  lemma {:induction false} RotLKeeps<N, L>(t: Tree<N, L>)
    requires t.Node? && t.right.Node?
    ensures InOrder(RotL(t)) == InOrder(t) && Nodes(RotL(t)) == Nodes(t) && Distinct(RotL(t)) == Distinct(t)
  {
    var a, b, d := t.left, t.right.left, t.right.right;
    var r1, l1 := t.right, RotL(t).left;
    Regroup(InOrder(a) + [t.n], InOrder(b), [r1.n], InOrder(d), []);
    assert Nodes(r1) == Nodes(b) + {r1.n} + Nodes(d);
    assert Nodes(l1) == Nodes(a) + {t.n} + Nodes(b);
  }

  lemma {:induction false} RotRKeeps<N, L>(t: Tree<N, L>)
    requires t.Node? && t.left.Node?
    ensures InOrder(RotR(t)) == InOrder(t) && Nodes(RotR(t)) == Nodes(t) && Distinct(RotR(t)) == Distinct(t)
  {
    assert RotL(RotR(t)) == t;
    RotLKeeps(RotR(t));
  }

  lemma {:induction false} PlugInOrder<N, L>(c: Ctx<N, L>, t: Tree<N, L>)
    ensures InOrder(Plug(c, t)) == Before(c) + InOrder(t) + After(c)
  {
    match c
    case Top =>
    case InLeft(up, n, x, r) =>
      PlugInOrder(up, Node(t, n, x, r));
      Regroup(Before(up), InOrder(t), [n], InOrder(r), After(up));
    case InRight(up, l, n, x) =>
      PlugInOrder(up, Node(l, n, x, t));
      Regroup(Before(up), InOrder(l), [n], InOrder(t), After(up));
  }

  /** The position of the node of t in the order of the whole tree, and of its subtrees. */
  lemma {:induction false} Position<N, L>(c: Ctx<N, L>, t: Tree<N, L>)
    requires t.Node?
    ensures var s, i, cl, cr := InOrder(Plug(c, t)), |Before(c)| + |InOrder(t.left)|, ToLeft(c, t), ToRight(c, t);
            && i < |s| && s[i] == t.n && |InOrder(t)| == |InOrder(t.left)| + 1 + |InOrder(t.right)|
            && |Before(cl)| == |Before(c)| && |Before(cr)| == i + 1
            && Plug(cl, t.left) == Plug(c, t) == Plug(cr, t.right)
            && |Before(c)| + |InOrder(t)| <= |s|
  {
    PlugInOrder(c, t);
  }

  lemma {:induction false} SameOrder<N, L>(c: Ctx<N, L>, t: Tree<N, L>, t': Tree<N, L>)
    requires InOrder(t) == InOrder(t')
    ensures InOrder(Plug(c, t)) == InOrder(Plug(c, t'))
  {
    PlugInOrder(c, t);
    PlugInOrder(c, t');
  }

  /** The path sp continued by the path base. */
  ghost function Append<N, L>(sp: Ctx<N, L>, base: Ctx<N, L>): Ctx<N, L> {
    match sp
    case Top => base
    case InLeft(up, n, x, r) => InLeft(Append(up, base), n, x, r)
    case InRight(up, l, n, x) => InRight(Append(up, base), l, n, x)
  }

  lemma {:induction false} PlugAppend<N, L>(sp: Ctx<N, L>, base: Ctx<N, L>, t: Tree<N, L>)
    ensures Plug(Append(sp, base), t) == Plug(base, Plug(sp, t))
  {
    match sp
    case Top =>
    case InLeft(up, n, x, r) => PlugAppend(up, base, Node(t, n, x, r));
    case InRight(up, l, n, x) => PlugAppend(up, base, Node(l, n, x, t));
  }

  lemma {:induction false} PlugNodes<N, L>(c: Ctx<N, L>, t: Tree<N, L>)
    ensures Nodes(Plug(c, t)) == CtxNodes(c) + Nodes(t)
    ensures !c.Top? ==> Plug(c, t).Node? && Plug(c, t).n in CtxNodes(c)
  {
    match c
    case Top =>
    case InLeft(up, n, x, r) => PlugNodes(up, Node(t, n, x, r)); if up.Top? {}
    case InRight(up, l, n, x) => PlugNodes(up, Node(l, n, x, t)); if up.Top? {}
  }

  lemma {:induction false} AppendNodes<N, L>(sp: Ctx<N, L>, base: Ctx<N, L>)
    ensures CtxNodes(Append(sp, base)) == CtxNodes(sp) + CtxNodes(base)
  {
    if !sp.Top? { AppendNodes(sp.up, base); }
  }

  /** The place of a record in a tree. */
  lemma {:induction false} Locate<N, L>(c: Ctx<N, L>, t: Tree<N, L>, x: N) returns (c': Ctx<N, L>, t': Tree<N, L>)
    requires x in Nodes(t)
    ensures Plug(c', t') == Plug(c, t) && t'.Node? && t'.n == x
    decreases t
  {
    if t.n == x {
      c', t' := c, t;
    } else if x in Nodes(t.left) {
      c', t' := Locate(InLeft(c, t.n, t.tag, t.right), t.left, x);
    } else {
      c', t' := Locate(InRight(c, t.left, t.n, t.tag), t.right, x);
    }
  }

  lemma {:induction false} InOrderNodes<N, L>(t: Tree<N, L>, x: N)
    ensures x in InOrder(t) <==> x in Nodes(t)
  {
    if t.Node? {
      InOrderNodes(t.left, x);
      InOrderNodes(t.right, x);
    }
  }

  lemma {:induction false} AroundNodes<N, L>(c: Ctx<N, L>, x: N)
    ensures x in Before(c) || x in After(c) <==> x in CtxNodes(c)
  {
    if !c.Top? {
      AroundNodes(c.up, x);
      InOrderNodes(if c.InLeft? then c.right else c.left, x);
    }
  }

  function Without<N(==)>(s: seq<N>, x: N): seq<N> {
    if s == [] then [] else if s[0] == x then s[1..] else [s[0]] + Without(s[1..], x)
  }

  lemma {:induction false} WithoutAt<N>(a: seq<N>, x: N, b: seq<N>)
    requires x !in a
    ensures Without(a + [x] + b, x) == a + b
  {
    var s := a + [x] + b;
    if a == [] {
      assert s[1..] == b;
    } else {
      assert s[1..] == a[1..] + [x] + b;
      WithoutAt(a[1..], x, b);
    }
  }

  lemma CutOut<N>(a: seq<N>, b: seq<N>, x: N, c: seq<N>, d: seq<N>)
    requires x !in a && x !in b
    ensures Without(a + (b + [x] + c) + d, x) == a + (b + c) + d
  {
    assert a + (b + [x] + c) + d == (a + b) + [x] + (c + d);
    WithoutAt(a + b, x, c + d);
  }

  lemma Rejoin<N>(a: seq<N>, x: N, b: seq<N>, c: seq<N>)
    requires c == [x] + b
    ensures a + [x] + b == a + c
  {}

  /** Along a path that only goes left, the end comes first. */
  lemma {:induction false} SpineOrder<N, L>(sp: Ctx<N, L>, s: Tree<N, L>)
    requires s.Node? && s.left.Leaf? && Before(sp) == []
    ensures InOrder(Plug(sp, s)) == [s.n] + InOrder(Plug(sp, s.right))
  {
    PlugInOrder(sp, s);
    PlugInOrder(sp, s.right);
    FirstOut(s.n, InOrder(s.right), After(sp));
  }

  lemma FirstOut<N>(x: N, a: seq<N>, b: seq<N>)
    ensures [] + ([] + [x] + a) + b == [x] + ([] + a + b)
  {}

  /** Along a path that only goes right, the end comes last. */
  lemma {:induction false} SpineOrderRight<N, L>(sp: Ctx<N, L>, s: Tree<N, L>)
    requires s.Node? && s.right.Leaf? && After(sp) == []
    ensures InOrder(Plug(sp, s)) == InOrder(Plug(sp, s.left)) + [s.n]
  {
    PlugInOrder(sp, s);
    PlugInOrder(sp, s.left);
    LastOut(Before(sp), InOrder(s.left), s.n);
  }

  lemma LastOut<N>(a: seq<N>, b: seq<N>, x: N)
    ensures a + (b + [x] + []) + [] == a + b + [] + [x]
  {}

  lemma {:induction false} DistinctPlug<N, L>(c: Ctx<N, L>, t: Tree<N, L>)
    requires Distinct(Plug(c, t))
    ensures Distinct(t) && DistinctCtx(c) && Nodes(t) !! CtxNodes(c)
  {
    match c
    case Top =>
    case InLeft(up, n, x, r) => DistinctPlug(up, Node(t, n, x, r));
    case InRight(up, l, n, x) => DistinctPlug(up, Node(l, n, x, t));
  }

  /** The node of t leaves the order; its neighbours in t stay as they are. */
  lemma {:induction false} OutOfOrder<N, L>(c: Ctx<N, L>, t: Tree<N, L>)
    requires Distinct(Plug(c, t)) && t.Node?
    ensures Without(InOrder(Plug(c, t)), t.n) == Before(c) + (InOrder(t.left) + InOrder(t.right)) + After(c)
  {
    PlugInOrder(c, t);
    DistinctPlug(c, t);
    InOrderNodes(t.left, t.n);
    AroundNodes(c, t.n);
    CutOut(Before(c), InOrder(t.left), t.n, InOrder(t.right), After(c));
  }
}
