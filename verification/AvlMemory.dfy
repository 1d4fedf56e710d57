/** Memory areas linked into a height-labelled binary tree (struct vm_area_struct, mm/mmap.c). */
module AvlMemory {
  import opened Words
  import opened Zipper

  class Vma {
    var left: Vma?
    var right: Vma?
    var height: int
    var start: nat
    var end: nat
    var next: Vma?
    var inode: nat
    var pte: nat
    var ops: nat
    var flags: bv16
    var offset: u32
  }

  /** Shapes whose tag is the stored height. */
  type T = Tree<Vma, int>
  type C = Ctx<Vma, int>

  datatype Cell = Cell(left: Vma?, right: Vma?, height: int)
  type Mem = map<Vma, Cell>

  ghost function Snap(s: set<Vma>): Mem
    reads s`left, s`right, s`height
  {
    map n | n in s :: Cell(n.left, n.right, n.height)
  }

  ghost function Ptr(t: T): Vma? { if t.Leaf? then null else t.n }

  ghost predicate Rep(m: Mem, t: T) {
    match t
    case Leaf => true
    case Node(l, n, h, r) => n in m && m[n] == Cell(Ptr(l), Ptr(r), h) && Rep(m, l) && Rep(m, r)
  }

  ghost predicate RepCtx(m: Mem, c: C, hole: Vma?, root: Vma?) {
    match c
    case Top => root == hole
    case InLeft(up, n, h, r) => n in m && m[n] == Cell(hole, Ptr(r), h) && Rep(m, r) && RepCtx(m, up, n, root)
    case InRight(up, l, n, h) => n in m && m[n] == Cell(Ptr(l), hole, h) && Rep(m, l) && RepCtx(m, up, n, root)
  }

  ghost predicate Holds(m: Mem, root: Vma?, c: C, t: T) {
    && Distinct(t) && DistinctCtx(c) && Nodes(t) !! CtxNodes(c)
    && Rep(m, t) && RepCtx(m, c, Ptr(t), root)
  }

  ghost predicate Except(m: Mem, m': Mem, w: set<Vma?>) {
    m.Keys == m'.Keys && forall n :: n in m && n !in w ==> m'[n] == m[n]
  }

  /** A pointer to a place an area can be stored in (struct vm_area_struct **). */
  datatype Place = AtRoot | AtLeft(n: Vma) | AtRight(n: Vma)

  ghost function PlaceOf(c: C): Place {
    match c
    case Top => AtRoot
    case InLeft(_, n, _, _) => AtLeft(n)
    case InRight(_, _, n, _) => AtRight(n)
  }

  /** The places of the nodes above the hole of c, the root first. */
  ghost function StackOf(c: C): seq<Place> {
    if c.Top? then [] else StackOf(c.up) + [PlaceOf(c.up)]
  }

  ghost function Owner(c: C): Vma? { if c.Top? then null else c.n }

  lemma {:induction false} Frame(m: Mem, m': Mem, t: T, w: set<Vma?>)
    requires Rep(m, t) && Except(m, m', w) && forall n :: n in Nodes(t) ==> n !in w
    ensures Rep(m', t)
  {
    if t.Node? {
      Frame(m, m', t.left, w);
      Frame(m, m', t.right, w);
    }
  }

  lemma {:induction false} FrameCtx(m: Mem, m': Mem, c: C, hole: Vma?, root: Vma?, w: set<Vma?>)
    requires RepCtx(m, c, hole, root) && Except(m, m', w) && forall n :: n in CtxNodes(c) ==> n !in w
    ensures RepCtx(m', c, hole, root)
  {
    match c
    case Top =>
    case InLeft(up, n, h, r) => Frame(m, m', r, w); FrameCtx(m, m', up, n, root, w);
    case InRight(up, l, n, h) => Frame(m, m', l, w); FrameCtx(m, m', up, n, root, w);
  }

  /** Moving the focus between a subtree and its parent, along a path, and to the root. */
  lemma {:induction false} Up(m: Mem, root: Vma?, c: C, t: T)
    requires !c.Top?
    ensures Holds(m, root, c, t) <==> Holds(m, root, c.up, Whole(c, t))
  {}

  lemma {:induction false} Along(m: Mem, root: Vma?, sp: C, base: C, t: T)
    ensures Holds(m, root, Append(sp, base), t) <==> Holds(m, root, base, Plug(sp, t))
  {
    if !sp.Top? {
      Up(m, root, Append(sp, base), t);
      Along(m, root, sp.up, base, Whole(sp, t));
    }
  }

  lemma {:induction false} ToRoot(m: Mem, root: Vma?, c: C, t: T)
    ensures Holds(m, root, c, t) <==> Holds(m, root, Top, Plug(c, t))
  {
    if !c.Top? {
      Up(m, root, c, t);
      ToRoot(m, root, c.up, Whole(c, t));
    }
  }

  /** Storing v into c's hole. */
  lemma {:induction false} Relink(m: Mem, m': Mem, c: C, was: Vma?, root: Vma?, v: Vma?, root': Vma?, w: set<Vma?>)
    requires RepCtx(m, c, was, root) && DistinctCtx(c) && Except(m, m', w)
    requires forall n :: n in CtxNodes(c) && n != Owner(c) ==> n !in w
    requires c.Top? ==> root' == v
    requires !c.Top? ==> root' == root && c.n in m'
    requires c.InLeft? ==> m'[c.n] == m[c.n].(left := v)
    requires c.InRight? ==> m'[c.n] == m[c.n].(right := v)
    ensures RepCtx(m', c, v, root')
  {
    if !c.Top? {
      FrameCtx(m, m', c.up, c.n, root, w);
      Frame(m, m', Sib(c), w);
    }
  }

  /** What the records at and around the focus hold. */
  lemma {:induction false} Around(m: Mem, root: Vma?, c: C, t: T)
    requires Holds(m, root, c, t)
    ensures c.Top? ==> root == Ptr(t)
    ensures t.Node? ==> t.n in m && m[t.n] == Cell(Ptr(t.left), Ptr(t.right), t.tag)
    ensures t.Node? && t.left.Node? ==> t.left.n in m && m[t.left.n] == Cell(Ptr(t.left.left), Ptr(t.left.right), t.left.tag)
    ensures t.Node? && t.right.Node? ==> t.right.n in m && m[t.right.n] == Cell(Ptr(t.right.left), Ptr(t.right.right), t.right.tag)
    ensures !c.Top? ==> c.n in m && m[c.n].height == c.tag
    ensures c.InLeft? ==> m[c.n] == Cell(Ptr(t), Ptr(c.right), c.tag)
    ensures c.InRight? ==> m[c.n] == Cell(Ptr(c.left), Ptr(t), c.tag)
  {
    assert t.Node? ==> Rep(m, t.left) && Rep(m, t.right);
  }
}
