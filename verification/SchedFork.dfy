/** Where ts_insert puts a forked task, however long the running task has run since it was picked.

    Ticks raise the running task's key in place, so from ten ticks on its key no longer fits its place
    at the left end of the tree.  Whether the search for the child's key meets it then decides whether
    the running task stays leftmost. */
module SchedFork {
  import opened Words
  import opened Zipper
  import opened CfsQueue
  import CfsClock
  import opened RbMemory
  import opened SchedFair

  /** A path that only goes left. */
  ghost predicate Spine(c: C) {
    c.Top? || (c.InLeft? && Spine(c.up))
  }

  lemma {:induction false} SpineOf(c: C)
    requires Before(c) == []
    ensures Spine(c)
  {
    if c.InLeft? { SpineOf(c.up); }
  }

  /** The first record in order is at the end of the left spine. */
  lemma {:induction false} LeftEnd(c: C, t: T)
    requires t.Node? && var s := InOrder(Plug(c, t)); s != [] && s[0] == t.n && NoDup(s)
    ensures Spine(c) && Before(c) == [] && t.left.Leaf?
    ensures InOrder(Plug(c, t))[1..] == InOrder(t.right) + After(c)
  {
    PlugInOrder(c, t);
    var s, i := InOrder(Plug(c, t)), |Before(c)| + |InOrder(t.left)|;
    assert s[i] == t.n;
    assert i == 0;
    SpineOf(c);
  }

  /** The search goes left at every node of a path. */
  ghost predicate PathAbove(c: C, key: map<Task, u32>, k: u32) {
    c.Top? || (c.n in key && Diff(k, key[c.n]) < 0 && PathAbove(c.up, key, k))
  }

  lemma {:induction false} AllAbove(c: C, key: map<Task, u32>, k: u32)
    requires Spine(c) && forall n :: n in After(c) ==> n in key && Diff(k, key[n]) < 0
    ensures PathAbove(c, key, k)
  {
    if !c.Top? {
      assert After(c)[0] == c.n;
      AllAbove(c.up, key, k);
    }
  }

  lemma {:induction false} SearchSpine(c: C, t: T, key: map<Task, u32>, k: u32)
    requires Spine(c) && PathAbove(c, key, k) && Nodes(Plug(c, t)) <= key.Keys && Nodes(t) <= key.Keys
    ensures Search(Plug(c, t), key, k, 0) == Search(t, key, k, 0)
  {
    hide Diff;
    if !c.Top? {
      PlugNodes(c, t);
      SearchSpine(c.up, Whole(c, t), key, k);
    }
  }

  /** A search that turns away from the left spine does not depend on the key at its end. */
  lemma {:induction false} SearchAside(c: C, w: T, key: map<Task, u32>, key': map<Task, u32>, k: u32, x: Task)
    requires Spine(c) && x !in CtxNodes(c) && Nodes(Plug(c, w)) <= key.Keys == key'.Keys && Nodes(w) <= key.Keys
    requires forall n :: n in key && n != x ==> key'[n] == key[n]
    requires Search(w, key', k, 0) == Search(w, key, k, 0)
    ensures Search(Plug(c, w), key', k, 0) == Search(Plug(c, w), key, k, 0)
  {
    hide Diff;
    if !c.Top? {
      PlugNodes(c, w);
      SearchOther(c.right, key, key', k, |InOrder(w)| + 1);
      SearchAside(c.up, Whole(c, w), key, key', k, x);
    }
  }

  /** The keys behind the running task's parent are above the child's if the parent's is. */
  lemma {:induction false} Behind(q: Queue<Task>, a: seq<Task>, b: seq<Task>, k: u32)
    requires Inv(q) && q.tasks[1..] == a + b && k == Add32(CHILD_VRUNTIME, q.min)
    requires b != [] ==> Diff(k, q.key[b[0]]) < 0
    ensures forall n :: n in b ==> n in q.key && Diff(k, q.key[n]) < 0
  {
    var ts := q.tasks[1..];
    forall n | n in b ensures n in q.key && Diff(k, q.key[n]) < 0 {
      var j :| 0 <= j < |b| && b[j] == n;
      assert ts[|a|] == b[0] && ts[|a| + j] == n;
      DiffIsDistance(k, q.key[b[0]], q.min);
      DiffIsDistance(k, q.key[n], q.min);
    }
  }

  /** The running task's parent in the tree stops the search: the child's key is not below the parent's. */
  ghost predicate Shielded(q: Queue<Task>, parent: Task?, k: u32) {
    parent != null && parent in q.key && Diff(k, q.key[parent]) >= 0
  }

  /** The search meets the running task. */
  lemma {:induction false} Met(q: Queue<Task>, c: C, t: T, k: u32)
    requires Inv(q) && t.Node? && t.n == q.cur && q.tasks == InOrder(Plug(c, t)) && Nodes(Plug(c, t)) <= q.key.Keys
    requires k == Add32(CHILD_VRUNTIME, q.min) && Sub32(q.key[q.cur], q.min) >= CHILD_VRUNTIME && !Shielded(q, ParentOf(c), k)
    ensures Search(Plug(c, t), q.key, k, 0) == Spot(0, Sub32(q.key[q.cur], q.min) == CHILD_VRUNTIME)
  {
    LeftEnd(c, t);
    PlugNodes(c, t);
    assert !c.Top? ==> After(c)[0] == c.n && c.n in CtxNodes(c);
    Behind(q, InOrder(t.right), After(c), k);
    AllAbove(c, q.key, k);
    SearchSpine(c, t, q.key, k);
    DiffIsDistance(k, q.key[q.cur], q.min);
  }

  /** The search ends beside the running task, where it would have ended had that task not run. */
  lemma {:induction false} Missed(q: Queue<Task>, c: C, t: T, k: u32)
    requires Inv(q) && t.Node? && t.n == q.cur && q.tasks == InOrder(Plug(c, t)) && Nodes(Plug(c, t)) <= q.key.Keys
    requires Distinct(Plug(c, t)) && Shielded(q, ParentOf(c), k)
    ensures Search(Plug(c, t), q.key, k, 0) == Search(Plug(c, t), Rewound(q).key, k, 0)
  {
    LeftEnd(c, t);
    PlugNodes(c, t);
    DistinctPlug(c, t);
    var w, key, key' := Whole(c, t), q.key, Rewound(q).key;
    assert t.n in Nodes(t);
    hide Inv, InOrder, Distinct, Before;
    assert Plug(c, t) == Plug(c.up, w);
    PlugNodes(c.up, w);
    Stopped(c, t, key, key', k);
    SearchAside(c.up, w, key, key', k, q.cur);
  }

  /** At the parent the search stops or goes on to the right. */
  lemma {:induction false} Stopped(c: C, t: T, key: map<Task, u32>, key': map<Task, u32>, k: u32)
    requires c.InLeft? && t.Node? && c.n in key && Diff(k, key[c.n]) >= 0 && t.n !in Nodes(c.right) && t.n != c.n
    requires Nodes(Whole(c, t)) <= key.Keys == key'.Keys && forall n :: n in key && n != t.n ==> key'[n] == key[n]
    ensures Search(Whole(c, t), key', k, 0) == Search(Whole(c, t), key, k, 0)
  {
    hide Diff, InOrder;
    SearchOther(c.right, key, key', k, |InOrder(t)| + 1);
  }

  /** The running task stays leftmost exactly if it has run no longer than the child's head start or its
      parent in the tree stops the search. */
  lemma {:induction false} ForkKeeps(q: Queue<Task>, c: C, t: T, n: Task)
    requires Inv(q) && n !in q.tasks && t.Node? && t.n == q.cur && Distinct(Plug(c, t))
    requires q.tasks == InOrder(Plug(c, t)) && Nodes(Plug(c, t)) <= q.key.Keys
    ensures var k, d := Add32(CHILD_VRUNTIME, q.min), Sub32(q.key[q.cur], q.min);
            var r := Search(Plug(c, t), q.key, k, 0);
            && (Inv(EnqueueAt(q, n, k, r)) <==> d <= CHILD_VRUNTIME || Shielded(q, ParentOf(c), k))
            && (d < CHILD_VRUNTIME || Shielded(q, ParentOf(c), k) ==> EnqueueAt(q, n, k, r) == Do(q, Fork(n, false)))
            && (d == CHILD_VRUNTIME && !Shielded(q, ParentOf(c), k) ==> EnqueueAt(q, n, k, r) == Do(q, Fork(n, true)))
  {
    var k, d, tree := Add32(CHILD_VRUNTIME, q.min), Sub32(q.key[q.cur], q.min), Plug(c, t);
    ForkAside(q, n);
    if d < CHILD_VRUNTIME {
      ForkEarly(q, n);
      FromTop(tree, q.key, k);
    } else if Shielded(q, ParentOf(c), k) {
      Missed(q, c, t, k);
      ForkSplits(q, n);
      FromTop(tree, Rewound(q).key, k);
    } else {
      Met(q, c, t, k);
      ForkInto(q, n, k);
    }
  }

  /** A turn of the first of the two tasks of start-up, then ticks that do not schedule. */
  ghost function LateRun(): seq<Event<Task>> {
    Ticks(4) + ([Event.Schedule(true)] + Ticks(11))
  }

  /** From start-up, after a turn of the first task, eleven ticks that do not schedule lead to a state in which a fork of
      the second puts the child before it; t is the tree that inserting the first task again leaves (Sched.TookTurns). */
  lemma {:induction false} ForkBreaks(a: Task, b: Task, n: Task)
    requires a != b && n != a && n != b
    ensures var t: T := Node(Leaf, b, false, Node(Leaf, a, true, Leaf));
            var q0 := CfsClock.Booted(a, b).q;
            && Inv(q0) && CanRun(q0, LateRun())
            && var q := Run(q0, LateRun());
               var k := Add32(CHILD_VRUNTIME, q.min);
               && Inv(q) && q.tasks == InOrder(t) && Nodes(t) <= q.key.Keys
               && EnqueueAt(q, n, k, Search(t, q.key, k, 0)).tasks == [n, b, a]
               && !Inv(EnqueueAt(q, n, k, Search(t, q.key, k, 0)))
  {
    hide Run, CanRun, Ticks, Inv, Search, Do;
    var t: T := Node(Leaf, b, false, Node(Leaf, a, true, Leaf));
    var q0 := CfsClock.Booted(a, b).q;
    CfsClock.BootedInv(a, b);
    LateState(a, b);
    RunKeeps(q0, LateRun());
    var q := Run(q0, LateRun());
    assert InOrder(t) == [b, a];
    LeftOfRoot(t, q.key, 111);
    assert [b, a][..0] + [n] + [b, a][0..] == [n, b, a];
    ForkInto(q, n, 111);
  }

  lemma {:induction false} LateState(a: Task, b: Task)
    requires a != b
    ensures var q0 := CfsClock.Booted(a, b).q;
            CanRun(q0, LateRun()) && Run(q0, LateRun()) == q0.(cur := b, tasks := [b, a], key := q0.key[a := 105][b := 112], min := 101)
  {
    hide Run, CanRun, Ticks, Do;
    var q0 := CfsClock.Booted(a, b).q;
    TicksRun(q0, 4);
    var q1, es := Run(q0, Ticks(4)), [Event.Schedule(true)];
    assert [a] + [b] + [] == [a, b] && [b] + [a] + [] == [b, a];
    CfsClock.TurnIs(a, [b], [], q0.key, 100);
    var q2 := Queue(b, [b, a], q0.key[a := 105], 101);
    assert Do(q1, es[0]) == q2;
    Still(q2);
    Unroll(q1, es[0], []);
    assert es + [] == es;
    TicksRun(q2, 11);
    RunThen(q1, es, Ticks(11));
    RunThen(q0, Ticks(4), es + Ticks(11));
  }

  lemma {:induction false} LeftOfRoot(t: T, key: map<Task, u32>, k: u32)
    requires t.Node? && t.left.Leaf? && Nodes(t) <= key.Keys && Diff(k, key[t.n]) < 0
    ensures Search(t, key, k, 0) == Spot(0, false)
  {
  }
}
