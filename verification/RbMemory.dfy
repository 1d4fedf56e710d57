/** Task records linked into a red-black tree, and what it means for the links and colours
    stored in them to have a given shape (struct rb_node, include/linux/rbtree.h). */
module RbMemory {
  import opened Words
  import opened Zipper

  datatype TaskState = RUNNING | INTERRUPTIBLE | UNINTERRUPTIBLE | ZOMBIE | STOPPED

  /** A task with its embedded tree node and scheduling key; the packed parent-and-colour word
      of the node is two fields here. */
  class Task {
    var left: Task?
    var right: Task?
    var parent: Task?
    var red: bool
    var vruntime: u32
    var state: TaskState
    var ticks: int
  }

  /** Shapes whose tag says whether the node is red. */
  type T = Tree<Task, bool>
  type C = Ctx<Task, bool>

  /** The tree fields of one record, and of a set of records at one moment. */
  datatype Cell = Cell(left: Task?, right: Task?, parent: Task?, red: bool)
  type Mem = map<Task, Cell>

  ghost function Snap(s: set<Task>): Mem
    reads s`left, s`right, s`parent, s`red
  {
    map n | n in s :: Cell(n.left, n.right, n.parent, n.red)
  }

  ghost function Ptr(t: T): Task? { if t.Leaf? then null else t.n }
  ghost function ParentOf(c: C): Task? { if c.Top? then null else c.n }

  /** m holds the tree t, hanging below `parent`. */
  ghost predicate Rep(m: Mem, t: T, parent: Task?) {
    match t
    case Leaf => true
    case Node(l, n, x, r) =>
      n in m && m[n] == Cell(Ptr(l), Ptr(r), parent, x) && Rep(m, l, n) && Rep(m, r, n)
  }

  /** m holds the context c of a hole that contains the pointer `hole`, below the root pointer. */
  ghost predicate RepCtx(m: Mem, c: C, hole: Task?, root: Task?) {
    match c
    case Top => root == hole
    case InLeft(up, n, x, r) =>
      && n in m && m[n] == Cell(hole, Ptr(r), ParentOf(up), x)
      && Rep(m, r, n) && RepCtx(m, up, n, root)
    case InRight(up, l, n, x) =>
      && n in m && m[n] == Cell(Ptr(l), hole, ParentOf(up), x)
      && Rep(m, l, n) && RepCtx(m, up, n, root)
  }

  ghost predicate Holds(m: Mem, root: Task?, c: C, t: T) {
    && Distinct(t) && DistinctCtx(c) && Nodes(t) !! CtxNodes(c)
    && Rep(m, t, ParentOf(c)) && RepCtx(m, c, Ptr(t), root)
  }

  /** Only records in w differ. */
  ghost predicate Except(m: Mem, m': Mem, w: set<Task?>) {
    m.Keys == m'.Keys && forall n :: n in m && n !in w ==> m'[n] == m[n]
  }

  lemma {:induction false} Frame(m: Mem, m': Mem, t: T, p: Task?, w: set<Task?>)
    requires Rep(m, t, p) && Except(m, m', w) && forall n :: n in Nodes(t) ==> n !in w
    ensures Rep(m', t, p)
  {
    if t.Node? {
      Frame(m, m', t.left, t.n, w);
      Frame(m, m', t.right, t.n, w);
    }
  }

  lemma {:induction false} FrameCtx(m: Mem, m': Mem, c: C, hole: Task?, root: Task?, w: set<Task?>)
    requires RepCtx(m, c, hole, root) && Except(m, m', w) && forall n :: n in CtxNodes(c) ==> n !in w
    ensures RepCtx(m', c, hole, root)
  {
    match c
    case Top =>
    case InLeft(up, n, x, r) => Frame(m, m', r, n, w); FrameCtx(m, m', up, n, root, w);
    case InRight(up, l, n, x) => Frame(m, m', l, n, w); FrameCtx(m, m', up, n, root, w);
  }

  /** Moving the focus between a subtree and its parent. */
  lemma {:induction false} Up(m: Mem, root: Task?, c: C, t: T)
    requires !c.Top?
    ensures Holds(m, root, c, t) <==> Holds(m, root, c.up, Whole(c, t))
  {
    var w := Whole(c, t);
    assert Nodes(w) == if c.InLeft? then Nodes(t) + {c.n} + Nodes(c.right) else Nodes(c.left) + {c.n} + Nodes(t);
  }

  /** Storing q as the parent of t's root. */
  lemma {:induction false} Reparent(m: Mem, m': Mem, t: T, p: Task?, q: Task?, w: set<Task?>)
    requires Rep(m, t, p) && Distinct(t) && Except(m, m', w) && forall n :: n in Nodes(t) && n != Ptr(t) ==> n !in w
    requires t.Node? ==> t.n in m' && m'[t.n] == m[t.n].(parent := q)
    ensures Rep(m', t, q)
  {
    if t.Node? {
      Frame(m, m', t.left, t.n, w);
      Frame(m, m', t.right, t.n, w);
    }
  }

  /** Storing v into c's hole. */
  lemma {:induction false} Relink(m: Mem, m': Mem, c: C, was: Task?, root: Task?, v: Task?, root': Task?, w: set<Task?>)
    requires RepCtx(m, c, was, root) && DistinctCtx(c) && Except(m, m', w)
    requires forall n :: n in CtxNodes(c) && n != ParentOf(c) ==> n !in w
    requires c.Top? ==> root' == v
    requires !c.Top? ==> root' == root && c.n in m'
    requires c.InLeft? ==> m'[c.n] == m[c.n].(left := v)
    requires c.InRight? ==> m'[c.n] == m[c.n].(right := v)
    ensures RepCtx(m', c, v, root')
  {
    if !c.Top? {
      FrameCtx(m, m', c.up, c.n, root, w);
      Frame(m, m', if c.InLeft? then c.right else c.left, c.n, w);
    }
  }

  /** Moving the focus along a whole path. */
  lemma {:induction false} Along(m: Mem, root: Task?, sp: C, base: C, t: T)
    ensures Holds(m, root, Append(sp, base), t) <==> Holds(m, root, base, Plug(sp, t))
  {
    if !sp.Top? {
      Up(m, root, Append(sp, base), t);
      Along(m, root, sp.up, base, Whole(sp, t));
    }
  }
}
