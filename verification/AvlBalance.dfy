/** Balance and height labels of the area tree (the rules that avl_checkheights checks), and how
    one step of avl_rebalance restores them. */
module AvlBalance {
  import opened Zipper
  import opened AvlMemory

  function Max(a: int, b: int): int { if a < b then b else a }

  /** heightof. */
  ghost function H(t: T): int { if t.Leaf? then 0 else t.tag }

  ghost predicate Avl(t: T) {
    match t
    case Leaf => true
    case Node(l, _, h, r) => Avl(l) && Avl(r) && -1 <= H(l) - H(r) <= 1 && h == 1 + Max(H(l), H(r))
  }

  /** Filling the hole with a balanced tree of height h gives a balanced, correctly labelled tree. */
  ghost predicate AvlCtx(c: C, h: int) {
    match c
    case Top => true
    case InLeft(up, _, tag, s) => Avl(s) && -1 <= h - H(s) <= 1 && tag == 1 + Max(h, H(s)) && AvlCtx(up, tag)
    case InRight(up, s, _, tag) => Avl(s) && -1 <= h - H(s) <= 1 && tag == 1 + Max(h, H(s)) && AvlCtx(up, tag)
  }

  lemma {:induction false} PlugAvl(c: C, t: T)
    requires Avl(t) && AvlCtx(c, H(t))
    ensures Avl(Plug(c, t))
  {
    if !c.Top? { PlugAvl(c.up, Whole(c, t)); }
  }

  lemma {:induction false} UnplugAvl(c: C, t: T)
    requires Avl(Plug(c, t))
    ensures Avl(t) && AvlCtx(c, H(t)) && Depth(c) + H(t) <= H(Plug(c, t))
  {
    if !c.Top? { UnplugAvl(c.up, Whole(c, t)); }
  }

  lemma {:induction false} HeightNat(t: T)
    requires Avl(t)
    ensures H(t) >= 0 && (H(t) == 0 ==> t.Leaf?)
  {
    if t.Node? { HeightNat(t.left); HeightNat(t.right); }
  }

  ghost function SingleRight(t: T): T
    requires t.Node? && t.left.Node?
  {
    var b := t.left.right;
    Node(t.left.left, t.left.n, 2 + H(b), Node(b, t.n, 1 + H(b), t.right))
  }

  ghost function DoubleRight(t: T): T
    requires t.Node? && t.left.Node? && t.left.right.Node?
  {
    var l, k := t.left, t.left.right;
    Node(Node(l.left, l.n, H(k), k.left), k.n, H(l), Node(k.right, t.n, H(k), t.right))
  }

  ghost function SingleLeft(t: T): T
    requires t.Node? && t.right.Node?
  {
    var b := t.right.left;
    Node(Node(t.left, t.n, 1 + H(b), b), t.right.n, 2 + H(b), t.right.right)
  }

  ghost function DoubleLeft(t: T): T
    requires t.Node? && t.right.Node? && t.right.left.Node?
  {
    var r, k := t.right, t.right.left;
    Node(Node(t.left, t.n, H(k), k.left), k.n, H(r), Node(k.right, r.n, H(k), r.right))
  }

  /** The two subtrees of a node are balanced, and differ by at most two in height. */
  ghost predicate Tilted(t: T) {
    t.Node? && Avl(t.left) && Avl(t.right) && -2 <= H(t.left) - H(t.right) <= 2
  }

  /** What one step of avl_rebalance makes of a tree. */
  ghost function Fixed(t: T): T
    requires t.Node?
  {
    if H(t.right) + 1 < H(t.left) && t.left.Node? then
      if H(t.left.left) >= H(t.left.right) then SingleRight(t)
      else if t.left.right.Node? then DoubleRight(t)
      else t
    else if H(t.left) + 1 < H(t.right) && t.right.Node? then
      if H(t.right.right) >= H(t.right.left) then SingleLeft(t)
      else if t.right.left.Node? then DoubleLeft(t)
      else t
    else Node(t.left, t.n, 1 + Max(H(t.left), H(t.right)), t.right)
  }

  /** No height is negative. */
  ghost predicate Natural(t: T) {
    t.Leaf? || (t.tag >= 0 && Natural(t.left) && Natural(t.right))
  }

  ghost predicate NaturalCtx(c: C) {
    c.Top? || (c.tag >= 0 && Natural(Sib(c)) && NaturalCtx(c.up))
  }

  lemma {:induction false} RightNatural(t: T)
    requires t.Node? && Natural(t) && t.left.Node?
    ensures Natural(SingleRight(t)) && (t.left.right.Node? ==> Natural(DoubleRight(t)))
  {
    var l, k := t.left, t.left.right;
    assert Natural(l) && Natural(l.left) && Natural(k);
    if k.Node? { assert Natural(k.left) && Natural(k.right); }
  }

  lemma {:induction false} LeftNatural(t: T)
    requires t.Node? && Natural(t) && t.right.Node?
    ensures Natural(SingleLeft(t)) && (t.right.left.Node? ==> Natural(DoubleLeft(t)))
  {
    var r, k := t.right, t.right.left;
    assert Natural(r) && Natural(r.right) && Natural(k);
    if k.Node? { assert Natural(k.left) && Natural(k.right); }
  }

  lemma {:induction false} FixedNatural(t: T)
    requires t.Node? && Natural(t)
    ensures Natural(Fixed(t))
  {
    if t.left.Node? { RightNatural(t); }
    if t.right.Node? { LeftNatural(t); }
    hide SingleRight, SingleLeft, DoubleRight, DoubleLeft;
  }

  lemma {:induction false} AvlNatural(t: T)
    requires Avl(t)
    ensures Natural(t)
  {
    if t.Node? {
      AvlNatural(t.left);
      AvlNatural(t.right);
    }
  }

  lemma {:induction false} AvlCtxNatural(c: C, h: int)
    requires AvlCtx(c, h)
    ensures NaturalCtx(c)
  {
    if !c.Top? {
      AvlNatural(Sib(c));
      AvlCtxNatural(c.up, c.tag);
    }
  }

  /** The two turns to the right of a node whose left child is two higher. */
  lemma {:induction false} RightBalance(t: T)
    requires Tilted(t) && H(t.left) == H(t.right) + 2
    ensures t.left.Node? && (H(t.left.left) < H(t.left.right) ==> t.left.right.Node?)
    ensures var t' := if H(t.left.left) >= H(t.left.right) then SingleRight(t) else DoubleRight(t);
            Avl(t') && H(t.left) <= H(t') <= 1 + H(t.left)
  {
    HeightNat(t.right);
    var l := t.left;
    assert Avl(l.left) && Avl(l.right);
    HeightNat(l.left);
    if H(l.left) < H(l.right) { assert Avl(l.right.left) && Avl(l.right.right); }
  }

  lemma {:induction false} LeftBalance(t: T)
    requires Tilted(t) && H(t.right) == H(t.left) + 2
    ensures t.right.Node? && (H(t.right.right) < H(t.right.left) ==> t.right.left.Node?)
    ensures var t' := if H(t.right.right) >= H(t.right.left) then SingleLeft(t) else DoubleLeft(t);
            Avl(t') && H(t.right) <= H(t') <= 1 + H(t.right)
  {
    HeightNat(t.left);
    var r := t.right;
    assert Avl(r.left) && Avl(r.right);
    HeightNat(r.right);
    if H(r.right) < H(r.left) { assert Avl(r.left.left) && Avl(r.left.right); }
  }

  lemma {:induction false} FixedBalance(t: T)
    requires Tilted(t)
    ensures Avl(Fixed(t)) && Max(H(t.left), H(t.right)) <= H(Fixed(t)) <= 1 + Max(H(t.left), H(t.right))
    ensures -1 <= H(t.left) - H(t.right) <= 1 ==> H(Fixed(t)) == 1 + Max(H(t.left), H(t.right))
  {
    if H(t.left) == H(t.right) + 2 { RightBalance(t); }
    if H(t.right) == H(t.left) + 2 { LeftBalance(t); }
    hide SingleRight, SingleLeft, DoubleRight, DoubleLeft;
  }

  /** The records and their order are the same. */
  ghost predicate SameRecords(t: T, t': T) {
    InOrder(t) == InOrder(t') && Nodes(t) == Nodes(t') && Distinct(t) == Distinct(t')
  }

  /** Changing the tags of a node and its children. */
  lemma {:induction false} Retag(t: T, t': T)
    requires t.Node? && t'.Node? && t.n == t'.n && SameRecords(t.left, t'.left) && SameRecords(t.right, t'.right)
    ensures SameRecords(t, t')
  {}

  lemma {:induction false} SingleKeeps(t: T)
    requires t.Node?
    ensures t.left.Node? ==> SameRecords(t, SingleRight(t))
    ensures t.right.Node? ==> SameRecords(t, SingleLeft(t))
  {
    if t.left.Node? {
      RotRKeeps(t);
      Retag(RotR(t).right, SingleRight(t).right);
      Retag(RotR(t), SingleRight(t));
    }
    if t.right.Node? {
      RotLKeeps(t);
      Retag(RotL(t).left, SingleLeft(t).left);
      Retag(RotL(t), SingleLeft(t));
    }
  }

  lemma {:induction false} DoubleRightKeeps(t: T)
    requires t.Node? && t.left.Node? && t.left.right.Node?
    ensures SameRecords(t, DoubleRight(t))
  {
    RotLKeeps(t.left);
    var t1 := Node(RotL(t.left), t.n, t.tag, t.right);
    Retag(t, t1);
    RotRKeeps(t1);
    var t2, t' := RotR(t1), DoubleRight(t);
    Retag(t2.left, t'.left);
    Retag(t2.right, t'.right);
    Retag(t2, t');
  }

  lemma {:induction false} DoubleLeftKeeps(t: T)
    requires t.Node? && t.right.Node? && t.right.left.Node?
    ensures SameRecords(t, DoubleLeft(t))
  {
    RotRKeeps(t.right);
    var t1 := Node(t.left, t.n, t.tag, RotR(t.right));
    Retag(t, t1);
    RotLKeeps(t1);
    var t2, t' := RotL(t1), DoubleLeft(t);
    Retag(t2.left, t'.left);
    Retag(t2.right, t'.right);
    Retag(t2, t');
  }

  lemma {:induction false} FixedKeeps(t: T)
    requires t.Node?
    ensures SameRecords(t, Fixed(t))
  {
    SingleKeeps(t);
    if t.left.Node? && t.left.right.Node? { DoubleRightKeeps(t); }
    if t.right.Node? && t.right.left.Node? { DoubleLeftKeeps(t); }
  }

  /** The loop invariant of avl_rebalance: the subtree is at most one higher or lower than the h
      that its place is labelled for. */
  ghost predicate RebalanceInv(c: C, t: T, h: int) {
    Avl(t) && AvlCtx(c, h) && -1 <= H(t) - h <= 1
  }

  lemma {:induction false} Step(c: C, t: T, h: int)
    requires RebalanceInv(c, t, h) && !c.Top?
    ensures var w := Whole(c, t);
            Tilted(w) && RebalanceInv(c.up, Fixed(w), c.tag) && (Fixed(w) == w ==> H(w) == c.tag)
  {
    FixedBalance(Whole(c, t));
  }

  /** Whatever the heights say, the order is the same. */
  lemma {:induction false} StepKeeps(c: C, t: T)
    requires Natural(t) && NaturalCtx(c) && !c.Top?
    ensures var w := Whole(c, t);
            Natural(w) && Natural(Fixed(w)) && NaturalCtx(c.up) && InOrder(Plug(c.up, Fixed(w))) == InOrder(Plug(c, t))
  {
    var w := Whole(c, t);
    assert Plug(c, t) == Plug(c.up, w);
    FixedNatural(w);
    FixedKeeps(w);
    SameOrder(c.up, w, Fixed(w));
  }

  lemma {:induction false} Done(c: C, t: T, h: int)
    requires RebalanceInv(c, t, h) && (c.Top? || H(t) == h)
    ensures Avl(Plug(c, t))
  {
    PlugAvl(c, t);
  }

  // Height and number of nodes

  /** The least number of nodes of a balanced tree of height h, and of one of height h - 1. */
  ghost function MinPair(h: nat): (nat, nat) {
    if h == 0 then (0, 0) else (1 + MinPair(h - 1).0 + MinPair(h - 1).1, MinPair(h - 1).0)
  }

  lemma {:induction false} MinGrows(g: nat, h: nat)
    requires g <= h
    ensures MinPair(g).0 <= MinPair(h).0 && MinPair(g).1 <= MinPair(h).1
    decreases h
  {
    if g < h { MinGrows(g, h - 1); if g > 0 { MinGrows(g - 1, h - 1); } }
  }

  lemma {:induction false} MinNodes(t: T)
    requires Avl(t)
    ensures H(t) >= 0 && |InOrder(t)| >= MinPair(H(t)).0
  {
    if t.Node? {
      MinNodes(t.left);
      MinNodes(t.right);
      var h := H(t) - 1;
      assert H(t.left) == h || H(t.right) == h;
      MinGrows(if h == 0 then 0 else h - 1, H(t.left));
      MinGrows(if h == 0 then 0 else h - 1, H(t.right));
    }
  }

  const NODES_OF_42: nat := 701_408_732

  /** The same by iteration from a pair. */
  ghost function MinFrom(n: nat, a: nat, b: nat): nat {
    if n == 0 then a else MinFrom(n - 1, 1 + a + b, a)
  }

  lemma {:induction false} MinIterates(n: nat, h: nat)
    ensures MinFrom(n, MinPair(h).0, MinPair(h).1) == MinPair(n + h).0
  {
    if n > 0 { MinIterates(n - 1, h + 1); }
  }

  lemma Min42()
    ensures MinPair(42).0 == NODES_OF_42
  {
    MinIterates(42, 0);
    assert MinFrom(42, 0, 0) == MinFrom(35, 33, 20);
    assert MinFrom(35, 33, 20) == MinFrom(28, 986, 609);
    assert MinFrom(28, 986, 609) == MinFrom(21, 28656, 17710);
    assert MinFrom(21, 28656, 17710) == MinFrom(14, 832039, 514228);
    assert MinFrom(14, 832039, 514228) == MinFrom(7, 24157816, 14930351);
    assert MinFrom(7, 24157816, 14930351) == MinFrom(0, 701408732, 433494436);
  }

  /** A balanced tree with fewer nodes is at most 41 high. */
  lemma {:induction false} HeightBound(t: T)
    requires Avl(t) && |InOrder(t)| < NODES_OF_42
    ensures 0 <= H(t) <= 41
  {
    MinNodes(t);
    if H(t) > 41 {
      MinGrows(42, H(t));
      Min42();
    }
  }
}
