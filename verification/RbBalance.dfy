/** The red-black rules on shapes, and how each fix-up step restores them. */
module RbBalance {
  import opened Zipper
  import opened RbMemory

  ghost predicate IsRed(t: T) { t.Node? && t.tag }

  ghost function Paint(t: T, red: bool): T
    requires t.Node?
  {
    Node(t.left, t.n, red, t.right)
  }

  /** The tree with a black root. */
  ghost function Blackened(t: T): T {
    if t.Leaf? then t else Paint(t, false)
  }

  /** No red node has a red child, and every path to a leaf passes h black nodes. */
  ghost predicate RB(t: T, h: nat) {
    match t
    case Leaf => h == 0
    case Node(l, _, red, r) =>
      if red then !IsRed(l) && !IsRed(r) && RB(l, h) && RB(r, h)
      else h > 0 && RB(l, h - 1) && RB(r, h - 1)
  }

  /** Filling the hole with a tree of black height h, black-rooted below a red node, obeys
      the rules; the root is black. */
  ghost predicate RBCtx(c: C, h: nat) {
    match c
    case Top => true
    case InLeft(up, _, red, s) => RB(s, h) && RedAlone(up, red, s) && RBCtx(up, if red then h else h + 1)
    case InRight(up, s, _, red) => RB(s, h) && RedAlone(up, red, s) && RBCtx(up, if red then h else h + 1)
  }

  /** A red node on the path stands between black ones. */
  ghost predicate RedAlone(up: C, red: bool, sibling: T) {
    red ==> !IsRed(sibling) && !up.Top? && !up.tag
  }

  /** A valid red-black tree. */
  ghost predicate Balanced(t: T) { !IsRed(t) && exists h: nat :: RB(t, h) }

  lemma {:induction false} PlugRB(c: C, t: T, h: nat) returns (h': nat)
    requires RB(t, h) && RBCtx(c, h) && (!c.Top? && c.tag ==> !IsRed(t))
    ensures RB(Plug(c, t), h') && (!c.Top? ==> !IsRed(Plug(c, t))) && (c.Top? ==> h' == h)
  {
    match c
    case Top => h' := h;
    case InLeft(up, n, red, s) =>
      h' := PlugRB(up, Node(t, n, red, s), if red then h else h + 1);
    case InRight(up, s, n, red) =>
      h' := PlugRB(up, Node(s, n, red, t), if red then h else h + 1);
  }

  lemma {:induction false} UnplugRB(c: C, t: T, h: nat) returns (h': nat)
    requires RB(Plug(c, t), h) && !IsRed(Plug(c, t))
    ensures RB(t, h') && RBCtx(c, h') && (!c.Top? && c.tag ==> !IsRed(t)) && (c.Top? ==> !IsRed(t))
  {
    match c
    case Top => h' := h;
    case InLeft(up, n, red, s) =>
      var k := UnplugRB(up, Node(t, n, red, s), h);
      h' := if red then k else k - 1;
    case InRight(up, s, n, red) =>
      var k := UnplugRB(up, Node(s, n, red, t), h);
      h' := if red then k else k - 1;
  }

  lemma {:induction false} PlugTop(t: T)
    ensures Plug(Top, t) == t
  {}

  lemma {:induction false} PlugLeft(c: C, t: T)
    requires t.Node?
    ensures Plug(InLeft(c, t.n, t.tag, t.right), t.left) == Plug(c, t)
  {}

  /** The innermost frame with another colour and sibling. */
  ghost function WithSib(c: C, red: bool, s: T): C
    requires !c.Top?
  {
    if c.InLeft? then InLeft(c.up, c.n, red, s) else InRight(c.up, s, c.n, red)
  }

  // Insertion

  /** The loop invariant of rb_insert_color: the rules hold but for the red node t, whose parent
      may be red too. */
  ghost predicate InsertInv(c: C, t: T, h: nat) {
    IsRed(t) && RB(t, h) && RBCtx(c, h)
  }

  lemma {:induction false} BlackAbove(c: C, t: T, h: nat)
    requires InsertInv(c, t, h) && !c.Top? && c.tag
    ensures !c.up.Top? && !c.up.tag
  {}

  lemma {:induction false} InsertDone(c: C, t: T, h: nat) returns (h': nat)
    requires InsertInv(c, t, h) && (c.Top? || !c.tag)
    ensures RB(Plug(c, t), h') && Plug(c, t).Node?
  {
    h' := PlugRB(c, t, h);
    PlugInOrder(c, t);
  }

  /** Blackening the root keeps the rules. */
  lemma {:induction false} PaintRoot(t: T, h: nat)
    requires t.Node? && RB(t, h)
    ensures Balanced(Paint(t, false)) && InOrder(Paint(t, false)) == InOrder(t)
  {
    assert RB(Paint(t, false), if t.tag then h + 1 else h);
  }

  /** A red uncle: recolour, and go on at the grandparent. */
  lemma {:induction false} UncleRed(c: C, t: T, h: nat)
    requires InsertInv(c, t, h) && !c.Top? && c.tag && IsRed(Sib(c.up))
    ensures var t' := Whole(WithSib(c.up, true, Paint(Sib(c.up), false)), Paint(Whole(c, t), false));
            InsertInv(c.up.up, t', h + 1) && InOrder(Plug(c.up.up, t')) == InOrder(Plug(c, t))
  {
    var P := Whole(c, t);
    var t' := Whole(WithSib(c.up, true, Paint(Sib(c.up), false)), Paint(P, false));
    assert RBCtx(c.up, h) && RB(Paint(P, false), h + 1);
    assert Plug(c, t) == Plug(c.up, P) == Plug(c.up.up, Whole(c.up, P));
    assert InOrder(P) == InOrder(Paint(P, false));
    SameOrder(c.up.up, t', Whole(c.up, P));
  }

  /** A black uncle and an inner node: rotate at the parent, which becomes the node. */
  lemma {:induction false} Inner(c: C, t: T, h: nat)
    requires InsertInv(c, t, h) && !c.Top? && c.tag && c.up.InLeft? != c.InLeft?
    ensures var (c', t') := Turned(c, t);
            InsertInv(c', t', h) && InOrder(Plug(c', t')) == InOrder(Plug(c, t))
  {
    var P := Whole(c, t);
    var (c', t') := Turned(c, t);
    assert Plug(c', t') == Plug(c.up, Whole(c', t')) && Plug(c, t) == Plug(c.up, P);
    if c.InRight? { RotLKeeps(P); } else { RotRKeeps(P); }
    SameOrder(c.up, P, Whole(c', t'));
  }

  ghost function Turned(c: C, t: T): (C, T)
    requires !c.Top? && t.Node?
  {
    if c.InRight? then (InLeft(c.up, t.n, t.tag, t.right), Node(c.left, c.n, c.tag, t.left))
    else (InRight(c.up, t.left, t.n, t.tag), Node(t.right, c.n, c.tag, c.right))
  }

  /** A black uncle and an outer node: recolour, and rotate at the grandparent. */
  lemma {:induction false} Outer(c: C, t: T, h: nat)
    requires InsertInv(c, t, h) && !c.Top? && c.tag && c.up.InLeft? == c.InLeft? && !IsRed(Sib(c.up))
    ensures var c' := OuterTurned(c);
            InsertInv(c', t, h) && InOrder(Plug(c', t)) == InOrder(Plug(c, t))
  {
    var G := Whole(c.up, Whole(c, t));
    var c' := OuterTurned(c);
    assert RBCtx(c.up, h) && RB(Sib(c'), h);
    assert Plug(c, t) == Plug(c.up.up, G) by { assert Plug(c, t) == Plug(c.up, Whole(c, t)); }
    assert Plug(c', t) == Plug(c.up.up, Whole(c', t));
    if c.InLeft? { RotRKeeps(G); } else { RotLKeeps(G); }
    SameOrder(c.up.up, G, Whole(c', t));
  }

  ghost function OuterTurned(c: C): C
    requires !c.Top? && !c.up.Top?
  {
    if c.InLeft? then InLeft(c.up.up, c.n, false, Node(c.right, c.up.n, true, Sib(c.up)))
    else InRight(c.up.up, Node(Sib(c.up), c.up.n, true, c.left), c.n, false)
  }

  // Removal

  /** The loop invariant of __rb_erase_color: the subtree t is one black node short for its place
      c, or would be right once painted black. */
  ghost predicate EraseInv(c: C, t: T, h: nat) {
    (if IsRed(t) then RB(Paint(t, false), h + 1) else RB(t, h)) && RBCtx(c, h + 1)
  }

  /** A turn of the loop ends it with a valid tree at the root, or gets closer to the end. */
  ghost predicate EraseStep(c: C, t: T, done: bool, c': C, t': T, h': nat) {
    && InOrder(Plug(c', t')) == InOrder(Plug(c, t))
    && if done then c'.Top? && t'.Node? && Balanced(t')
       else EraseInv(c', t', h') && (IsRed(t') || Depth(c') < Depth(c))
  }

  /** A place that is one black node short has a sibling. */
  lemma {:induction false} SibThere(c: C, t: T, h: nat)
    requires EraseInv(c, t, h) && !c.Top?
    ensures Sib(c).Node?
  {}

  lemma {:induction false} EraseDone(c: C, t: T, h: nat)
    requires EraseInv(c, t, h) && (c.Top? || IsRed(t))
    ensures var t' := Plug(c, if t.Leaf? then t else Paint(t, false));
            Balanced(t') && InOrder(t') == InOrder(Plug(c, t))
  {
    var t' := if t.Leaf? then t else Paint(t, false);
    if c.Top? {
      assert RB(t', if IsRed(t) then h + 1 else h);
    } else {
      var h' := PlugRB(c, t', h + 1);
    }
    SameOrder(c, t, t');
  }

  /** A red sibling: recolour and rotate at the parent, so that the sibling is black. */
  lemma {:induction false} SibRed(c: C, t: T, h: nat)
    requires EraseInv(c, t, h) && !IsRed(t) && !c.Top? && IsRed(Sib(c))
    ensures var c' := SibTurned(c);
            EraseInv(c', t, h) && !IsRed(Sib(c')) && InOrder(Plug(c', t)) == InOrder(Plug(c, t))
  {
    var c', W := SibTurned(c), Whole(c, t);
    assert Plug(c', t) == Plug(c'.up, Whole(c', t)) == Plug(c.up, Whole(c'.up, Whole(c', t)));
    if c.InLeft? { RotLKeeps(W); } else { RotRKeeps(W); }
    SameOrder(c.up, W, Whole(c'.up, Whole(c', t)));
    assert RBCtx(c'.up, h + 1);
  }

  ghost function SibTurned(c: C): C
    requires !c.Top? && Sib(c).Node?
  {
    var s := Sib(c);
    if c.InLeft? then InLeft(InLeft(c.up, s.n, false, s.right), c.n, true, s.left)
    else InRight(InRight(c.up, s.left, s.n, false), s.right, c.n, true)
  }

  /** A black sibling with black children: paint it red, and go on at the parent. */
  lemma {:induction false} SibBlack(c: C, t: T, h: nat) returns (h': nat)
    requires EraseInv(c, t, h) && !IsRed(t) && !c.Top? && Sib(c).Node? && !Sib(c).tag
    requires !IsRed(Sib(c).left) && !IsRed(Sib(c).right)
    ensures var t' := Whole(WithSib(c, c.tag, Paint(Sib(c), true)), t);
            EraseInv(c.up, t', h') && InOrder(Plug(c.up, t')) == InOrder(Plug(c, t))
  {
    var t' := Whole(WithSib(c, c.tag, Paint(Sib(c), true)), t);
    h' := if c.tag then h else h + 1;
    assert RB(Paint(Sib(c), true), h);
    SameOrder(c.up, t', Whole(c, t));
  }

  /** The child of the sibling on the far, and on the near, side of the hole. */
  ghost function Far(c: C): T
    requires !c.Top? && Sib(c).Node?
  {
    if c.InLeft? then Sib(c).right else Sib(c).left
  }

  ghost function Near(c: C): T
    requires !c.Top? && Sib(c).Node?
  {
    if c.InLeft? then Sib(c).left else Sib(c).right
  }

  /** Only the near nephew is red: recolour and rotate at the sibling. */
  lemma {:induction false} NearRed(c: C, t: T, h: nat)
    requires EraseInv(c, t, h) && !c.Top? && Sib(c).Node? && !Sib(c).tag && IsRed(Near(c)) && !IsRed(Far(c))
    ensures var c' := NearTurned(c);
            && EraseInv(c', t, h) && Sib(c').Node? && !Sib(c').tag && IsRed(Far(c'))
            && InOrder(Plug(c', t)) == InOrder(Plug(c, t))
  {
    var c', s := NearTurned(c), Sib(c);
    assert RB(s, h + 1) && RB(Near(c), h) && RB(Far(c), h) && RB(Far(c'), h) && RB(Near(c'), h);
    if c.InLeft? { RotRKeeps(s); } else { RotLKeeps(s); }
    assert InOrder(Sib(c')) == InOrder(s);
    SameOrder(c.up, Whole(c, t), Whole(c', t));
  }

  ghost function NearTurned(c: C): C
    requires !c.Top? && Sib(c).Node? && Near(c).Node?
  {
    var s, k := Sib(c), Near(c);
    WithSib(c, c.tag, if c.InLeft? then Node(k.left, k.n, false, Node(k.right, s.n, true, s.right))
                      else Node(Node(s.left, s.n, true, k.left), k.n, false, k.right))
  }

  /** The far nephew is red: recolour and rotate at the parent, and all is well. */
  lemma {:induction false} FarRed(c: C, t: T, h: nat)
    requires EraseInv(c, t, h) && !IsRed(t) && !c.Top? && Sib(c).Node? && !Sib(c).tag && IsRed(Far(c))
    ensures var w := Plug(c.up, FarTurned(c, t));
            w.Node? && Balanced(w) && InOrder(w) == InOrder(Plug(c, t))
  {
    var s, W, t' := Sib(c), Whole(c, t), FarTurned(c, t);
    var k := if c.tag then h + 1 else h + 2;
    assert RB(s, h + 1) && RB(Near(c), h) && RB(Far(c), h) && RB(Paint(Far(c), false), h + 1);
    assert RB(if c.InLeft? then t'.left else t'.right, h + 1);
    if c.InLeft? { RotLKeeps(W); } else { RotRKeeps(W); }
    assert InOrder(Paint(Far(c), false)) == InOrder(Far(c));
    SameOrder(c.up, W, t');
    var h' := PlugRB(c.up, t', k);
    PlugInOrder(c.up, t');
  }

  ghost function FarTurned(c: C, t: T): T
    requires !c.Top? && Sib(c).Node? && Far(c).Node?
  {
    var s := Sib(c);
    if c.InLeft? then Node(Node(t, c.n, false, s.left), s.n, c.tag, Paint(s.right, false))
    else Node(Paint(s.left, false), s.n, c.tag, Node(s.right, c.n, false, t))
  }

  /** Where the successor of `was` is: at the end of a path sp in its right subtree. */
  ghost function SuccCtx(c: C, l: T, was: Task, x: bool, sp: C): C {
    Append(sp, InRight(c, l, was, x))
  }

  /** Taking out a node t with at most one child, t', from a valid tree. */
  lemma {:induction false} TakenOut(c: C, t: T, t': T) returns (h: nat)
    requires Balanced(Plug(c, t)) && Distinct(Plug(c, t)) && t.Node?
    requires (t.left.Leaf? || t.right.Leaf?) && t' == if t.left.Leaf? then t.right else t.left
    ensures if t.tag then Balanced(Plug(c, t')) else EraseInv(c, t', h)
    ensures InOrder(Plug(c, t')) == Without(InOrder(Plug(c, t)), t.n)
  {
    var h0 :| RB(Plug(c, t), h0);
    var h1 := UnplugRB(c, t, h0);
    h := Shortened(c, t, t', h1);
    OutOfOrder(c, t);
    assert InOrder(t') == InOrder(t.left) + InOrder(t.right);
    PlugInOrder(c, t');
  }

  lemma {:induction false} Shortened(c: C, t: T, t': T, h1: nat) returns (h: nat)
    requires RB(t, h1) && RBCtx(c, h1) && t.Node? && (c.Top? ==> !t.tag)
    requires (t.left.Leaf? || t.right.Leaf?) && t' == if t.left.Leaf? then t.right else t.left
    ensures if t.tag then Balanced(Plug(c, t')) else EraseInv(c, t', h)
  {
    h := if t.tag then h1 else h1 - 1;
    if t.tag { var h2 := PlugRB(c, t', h1); }
  }

  /** Moving the successor s, at the end of the path sp in the right subtree, to the place of t's node. */
  lemma {:induction false} MovedOut(c: C, t: T, sp: C, s: T) returns (h: nat)
    requires Balanced(Plug(c, t)) && Distinct(Plug(c, t)) && t.Node?
    requires s.Node? && s.left.Leaf? && Plug(sp, s) == t.right && Before(sp) == []
    ensures var c' := SuccCtx(c, t.left, s.n, t.tag, sp);
            && (if s.tag then Balanced(Plug(c', s.right)) else EraseInv(c', s.right, h))
            && InOrder(Plug(c', s.right)) == Without(InOrder(Plug(c, t)), t.n)
  {
    var c' := SuccCtx(c, t.left, s.n, t.tag, sp);
    PlugAppend(sp, InRight(c, t.left, t.n, t.tag), s);
    var h0 :| RB(Plug(c, t), h0);
    var h1 := UnplugRB(SuccCtx(c, t.left, t.n, t.tag, sp), s, h0);
    Renamed(c, t.left, t.n, s.n, t.tag, sp, h1);
    h := Shortened(c', s, s.right, h1);
    MovedOrder(c, t, sp, s);
  }

  lemma {:induction false} MovedOrder(c: C, t: T, sp: C, s: T)
    requires Distinct(Plug(c, t)) && t.Node?
    requires s.Node? && s.left.Leaf? && Plug(sp, s) == t.right && Before(sp) == []
    ensures InOrder(Plug(SuccCtx(c, t.left, s.n, t.tag, sp), s.right)) == Without(InOrder(Plug(c, t)), t.n)
  {
    var r := Plug(sp, s.right);
    OutOfOrder(c, t);
    PlugAppend(sp, InRight(c, t.left, s.n, t.tag), s.right);
    PlugInOrder(c, Node(t.left, s.n, t.tag, r));
    SpineOrder(sp, s);
    Rejoin(InOrder(t.left), s.n, InOrder(r), InOrder(t.right));
  }

  /** The rules do not depend on which record is at a place. */
  lemma {:induction false} Renamed(c: C, l: T, a: Task, b: Task, x: bool, sp: C, h: nat)
    requires RBCtx(SuccCtx(c, l, a, x, sp), h)
    ensures RBCtx(SuccCtx(c, l, b, x, sp), h)
  {
    if !sp.Top? {
      Renamed(c, l, a, b, x, sp.up, if sp.tag then h else h + 1);
    }
  }
}
