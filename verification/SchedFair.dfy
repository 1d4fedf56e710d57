/** Keyed search and insertion in the run-queue tree (kernel/sched_fair.c). */
module SchedFair {
  import opened Words
  import opened Zipper
  import opened CfsQueue
  import opened RbMemory
  import opened RbBalance
  import opened RbTree

  ghost function Keys(s: set<Task>): map<Task, u32>
    reads s`vruntime
  {
    map n | n in s :: n.vruntime
  }

  lemma {:induction false} PlaceSigns(ts: seq<Task>, key: map<Task, u32>, k: u32)
    requires Keyed(ts, key)
    ensures var i := Place(ts, key, k);
            (forall j :: 0 <= j < i ==> Diff(k, key[ts[j]]) > 0) && (i < |ts| ==> Diff(k, key[ts[i]]) <= 0)
  {
    if ts != [] && Diff(k, key[ts[0]]) > 0 {
      PlaceSigns(ts[1..], key, k);
    }
  }

  /** A comparison tells the side of the place of k. */
  lemma {:induction false} Side(ts: seq<Task>, key: map<Task, u32>, k: u32, j: nat)
    requires Keyed(ts, key) && Splits(ts, key, k) && j < |ts|
    ensures var i, d := Place(ts, key, k), Diff(k, key[ts[j]]);
            && (d > 0 <==> j < i) && (d == 0 <==> j == i && key[ts[i]] == k)
  {
    PlaceSigns(ts, key, k);
  }

  lemma {:induction false} Ends(t: T)
    ensures Plug(Top, t) == t && var c: C, l: T := Top, Leaf; Before(c) == [] && InOrder(l) == []
  {}

  /** An empty place of a valid tree can take a red leaf. */
  lemma {:induction false} LeafPlace(c: C, n: Task)
    requires Balanced(Plug(c, Leaf)) && n !in Nodes(Plug(c, Leaf))
    ensures var t := Node(Leaf, n, true, Leaf); var s, i := InOrder(Plug(c, Leaf)), |Before(c)|;
            && InsertInv(c, t, 0) && n !in CtxNodes(c)
            && i <= |s| && InOrder(Plug(c, t)) == s[..i] + [n] + s[i..]
  {
    var h :| RB(Plug(c, Leaf), h);
    var h' := UnplugRB(c, Leaf, h);
    PlugNodes(c, Leaf);
    PlugInOrder(c, Leaf);
    PlugInOrder(c, Node(Leaf, n, true, Leaf));
  }

  /** Where the search for k in the tree t ends; b records come before those of t. */
  ghost function Search(t: T, key: map<Task, u32>, k: u32, b: nat): (r: Spot)
    requires Nodes(t) <= key.Keys
    ensures b <= r.i <= b + |InOrder(t)|
    decreases t
  {
    match t
    case Leaf => Spot(b, false)
    case Node(l, n, _, right) =>
      var j, d := b + |InOrder(l)|, Diff(k, key[n]);
      if d < 0 then Search(l, key, k, b) else if d > 0 then Search(right, key, k, j + 1) else Spot(j, true)
  }

  /** The place of k is in the part of s that starts at lo and has n records. */
  ghost predicate Within(s: seq<Task>, key: map<Task, u32>, k: u32, lo: nat, n: nat) {
    && Keyed(s, key) && Splits(s, key, k)
    && var r := Scan(s, key, k);
       lo <= r.i <= lo + n && (r.found ==> r.i < lo + n)
  }

  lemma {:induction false} Halved(s: seq<Task>, key: map<Task, u32>, k: u32, lo: nat, l: nat, r: nat)
    requires Within(s, key, k, lo, l + 1 + r) && lo + l < |s|
    ensures var d := Diff(k, key[s[lo + l]]);
            && (d < 0 ==> Within(s, key, k, lo, l))
            && (d > 0 ==> Within(s, key, k, lo + l + 1, r))
            && (d == 0 ==> Scan(s, key, k) == Spot(lo + l, true))
  {
    Side(s, key, k, lo + l);
    hide Place, Splits, Diff;
  }

  lemma {:induction false} NoneLeft(s: seq<Task>, key: map<Task, u32>, k: u32, lo: nat)
    requires Within(s, key, k, lo, 0)
    ensures Scan(s, key, k) == Spot(lo, false)
  {
  }

  /** In a tree whose order splits at k, the search ends where a scan in order does. */
  lemma {:induction false} SearchIsScan(c: C, t: T, key: map<Task, u32>, k: u32)
    requires Nodes(t) <= key.Keys && Within(InOrder(Plug(c, t)), key, k, |Before(c)|, |InOrder(t)|)
    ensures Keyed(InOrder(Plug(c, t)), key) && Search(t, key, k, |Before(c)|) == Scan(InOrder(Plug(c, t)), key, k)
    decreases t
  {
    var s := InOrder(Plug(c, t));
    assert Keyed(s, key);
    hide Within, Keyed, Scan, Diff, Plug, Before;
    if t.Leaf? {
      NoneLeft(s, key, k, |Before(c)|);
    } else {
      Position(c, t);
      Halved(s, key, k, |Before(c)|, |InOrder(t.left)|, |InOrder(t.right)|);
      if Diff(k, key[t.n]) < 0 {
        SearchIsScan(ToLeft(c, t), t.left, key, k);
      } else if Diff(k, key[t.n]) > 0 {
        SearchIsScan(ToRight(c, t), t.right, key, k);
      }
    }
  }

  lemma {:induction false} FromTop(tree: T, key: map<Task, u32>, k: u32)
    requires Nodes(tree) <= key.Keys && Keyed(InOrder(tree), key) && Splits(InOrder(tree), key, k)
    ensures Search(tree, key, k, 0) == Scan(InOrder(tree), key, k)
  {
    SearchIsScan(Top, tree, key, k);
  }

  /** The key of a task outside the tree does not matter. */
  lemma {:induction false} SearchOther(t: T, key: map<Task, u32>, key': map<Task, u32>, k: u32, b: nat)
    requires Nodes(t) <= key.Keys && Nodes(t) <= key'.Keys && forall n :: n in Nodes(t) ==> key'[n] == key[n]
    ensures Search(t, key', k, b) == Search(t, key, k, b)
    decreases t
  {
    if t.Node? {
      SearchOther(t.left, key, key', k, b);
      SearchOther(t.right, key, key', k, b + |InOrder(t.left)| + 1);
    }
  }

  /** What is in the tree is a task record. */
  lemma {:induction false} Members(rq: RbRoot)
    requires rq.Valid()
    ensures Nodes(rq.tree) <= rq.space
  {
    forall n | n in Nodes(rq.tree) ensures n in rq.space {
      var c, t := Locate(Top, rq.tree, n);
      Root(rq.Mem(), rq.node, c, t);
    }
  }

  /** The walk of ts_insert: the empty place for k, unless the key is there already. */
  method FindPlace(root: RbRoot, k: u32) returns (free: bool, parent: Task?, link: Link, ghost c: C)
    requires root.Valid() && Nodes(root.tree) <= root.space
    ensures var r := Search(root.tree, Keys(root.space), k, 0);
            (free <==> !r.found) && (free ==> root.At(c, Leaf) && Plug(c, Leaf) == root.tree && |Before(c)| == r.i)
    ensures free ==> parent == ParentOf(c) && link == LinkOf(c)
  {
    hide Holds, CtxNodes, Diff, InOrder, Plug, Before;
    ghost var s, key := InOrder(root.tree), Keys(root.space);
    ghost var t: T := root.tree;
    c := Top;
    Ends(t);
    var node := root.node;
    link, parent := AtRoot, null;
    Around(root.Mem(), root.node, c, t);
    while node != null
      invariant root.At(c, t) && Plug(c, t) == root.tree && node == Ptr(t) && parent == ParentOf(c) && link == LinkOf(c)
      invariant node != null ==> node in root.space && node.left == Ptr(t.left) && node.right == Ptr(t.right)
      invariant Nodes(t) <= key.Keys && Search(t, key, k, |Before(c)|) == Search(root.tree, key, k, 0)
      decreases t
    {
      Position(c, t);
      var result := Diff(k, node.vruntime);
      parent := node;
      if result < 0 {
        c, t := ToLeft(c, t), t.left;
        link, node := AtLeft(node), node.left;
      } else if result > 0 {
        c, t := ToRight(c, t), t.right;
        link, node := AtRight(node), node.right;
      } else {
        free := false;
        return;
      }
      Up(root.Mem(), root.node, c, t);
      Around(root.Mem(), root.node, c, t);
    }
    free := true;
  }

  /** Comparing with the key at position i of an ordered sequence. */
  lemma {:induction false} SideOrdered(ts: seq<Task>, key: map<Task, u32>, base: u32, i: nat, j: nat)
    requires Keyed(ts, key) && Ordered(ts, key, base) && i < |ts| && j < |ts|
    ensures var d := Diff(key[ts[i]], key[ts[j]]); (d > 0 <==> j < i) && (d == 0 <==> j == i)
  {
    DiffIsDistance(key[ts[i]], key[ts[j]], base);
  }

  /** The order s is what ts_insert makes of the entities ins, from the empty tree on, refused ones included;
      their keys are less than 2^31 above base. */
  ghost predicate BuiltBy(s: seq<Task>, ins: seq<Task>, key: map<Task, u32>, base: u32) {
    Keyed(ins, key) && Spans(ins, key, base) && s == Built(ins, key)
  }

  /** With one entity more it is what the search in any such tree makes of it. */
  lemma {:induction false} InsertBuilt(tree: T, ins: seq<Task>, key: map<Task, u32>, n: Task, base: u32)
    requires Nodes(tree) <= key.Keys && n in key
    ensures var s, r := InOrder(tree), Search(tree, key, key[n], 0);
            BuiltBy(s, ins, key, base) && Sub32(key[n], base) < HALF ==>
              BuiltBy(if r.found then s else s[..r.i] + [n] + s[r.i..], ins + [n], key, base)
  {
    hide Search, Place;
    if BuiltBy(InOrder(tree), ins, key, base) && Sub32(key[n], base) < HALF {
      BuiltOrdered(ins, key, base);
      OrderedSplits(InOrder(tree), key, base, key[n]);
      FromTop(tree, key, key[n]);
      assert (ins + [n])[..|ins|] == ins;
    }
  }

  /** The end of ts_insert: links the entity in and rebalances. */
  method AddNode(root: RbRoot, se: Task, parent: Task?, link: Link, ghost c: C)
    requires root.Valid() && se in root.space && se !in Nodes(root.tree)
    requires root.At(c, Leaf) && Plug(c, Leaf) == root.tree && parent == ParentOf(c) && link == LinkOf(c)
    modifies root`node, root`tree, root.space`left, root.space`right, root.space`parent, root.space`red
    ensures root.Valid()
    ensures var s, i := old(InOrder(root.tree)), |Before(c)|; i <= |s| && InOrder(root.tree) == s[..i] + [se] + s[i..]
    ensures c.Top? || !c.tag ==> root.tree == Blackened(Plug(c, Node(Leaf, se, true, Leaf)))
  {
    hide Holds, RB, RBCtx, Nodes, CtxNodes, Plug, InOrder;
    LeafPlace(c, se);
    root.LinkNode(se, parent, link, c);
    root.tree := root.InsertColor(se, c, Node(Leaf, se, true, Leaf), 0);
  }

  /** ts_insert; ins may name the entities that it was called for before, from the empty tree on, and c is the empty
      place for the new one. */
  method TsInsert(root: RbRoot, se: Task, ghost ins: seq<Task>, ghost base: u32) returns (ok: bool, ghost c: C)
    requires root.Valid() && Nodes(root.tree) <= root.space && se in root.space && se !in Nodes(root.tree)
    modifies root`node, root`tree, root.space`left, root.space`right, root.space`parent, root.space`red
    ensures root.Valid()
    ensures var s, r := old(InOrder(root.tree)), Search(old(root.tree), Keys(root.space), se.vruntime, 0);
            (ok <==> !r.found) && InOrder(root.tree) == if ok then s[..r.i] + [se] + s[r.i..] else s
    ensures BuiltBy(old(InOrder(root.tree)), ins, Keys(root.space), base) && Sub32(se.vruntime, base) < HALF ==>
              BuiltBy(InOrder(root.tree), ins + [se], Keys(root.space), base)
    ensures ok ==> Plug(c, Leaf) == old(root.tree) && |Before(c)| == Search(old(root.tree), Keys(root.space), se.vruntime, 0).i
    ensures ok && (c.Top? || !c.tag) ==> root.tree == Blackened(Plug(c, Node(Leaf, se, true, Leaf)))
  {
    hide Holds, Balanced, Search, Nodes, Plug, InOrder, BuiltBy, Before;
    InsertBuilt(root.tree, ins, Keys(root.space), se, base);
    var parent, link;
    ok, parent, link, c := FindPlace(root, se.vruntime);
    if ok {
      AddNode(root, se, parent, link, c);
    }
  }

  /** se_search, in a tree that ts_insert has built, finds an entity exactly if its key was ever offered; k may
      be any key. */
  method SeSearch(root: RbRoot, k: u32, ghost ins: seq<Task>, ghost base: u32) returns (se: Task?)
    requires root.Valid()
    requires BuiltBy(InOrder(root.tree), ins, Keys(root.space), base)
    ensures se != null ==> se in InOrder(root.tree) && se.vruntime == k
    ensures se == null <==> forall n :: n in ins ==> n.vruntime != k
  {
    hide Built;
    BuiltOrdered(ins, Keys(root.space), base);
    ghost var key := Keys(root.space);
    se := SearchOrdered(root, k, base);
    if se == null {
      forall n | n in ins ensures n.vruntime != k {
        var m :| m in InOrder(root.tree) && key[m] == key[n];
      }
    }
  }

  /** The loop of se_search, on any tree in strict order. */
  method SearchOrdered(root: RbRoot, k: u32, ghost base: u32) returns (se: Task?)
    requires root.Valid()
    requires var s, key := InOrder(root.tree), Keys(root.space); Keyed(s, key) && Ordered(s, key, base)
    ensures se != null ==> se in InOrder(root.tree) && se.vruntime == k
    ensures se == null ==> forall n :: n in InOrder(root.tree) ==> n.vruntime != k
  {
    hide Holds, Nodes, CtxNodes, Diff, Ordered, InOrder, Plug, Before;
    ghost var s, key := InOrder(root.tree), Keys(root.space);
    ghost var present, i := exists i :: 0 <= i < |s| && key[s[i]] == k, 0;
    if present {
      i :| 0 <= i < |s| && key[s[i]] == k;
    }
    ghost var c: C, t: T := Top, root.tree;
    Ends(t);
    var node := root.node;
    Around(root.Mem(), root.node, c, t);
    while node != null
      invariant root.At(c, t) && Plug(c, t) == root.tree && node == Ptr(t)
      invariant node != null ==> node in root.space && node.left == Ptr(t.left) && node.right == Ptr(t.right)
      invariant present ==> |Before(c)| <= i < |Before(c)| + |InOrder(t)|
      decreases t
    {
      Position(c, t);
      var result := Diff(k, node.vruntime);
      if present { SideOrdered(s, key, base, i, |Before(c)| + |InOrder(t.left)|); }
      if result < 0 {
        c, t := ToLeft(c, t), t.left;
        node := node.left;
      } else if result > 0 {
        c, t := ToRight(c, t), t.right;
        node := node.right;
      } else {
        DiffZero(k, node.vruntime);
        return node;
      }
      Up(root.Mem(), root.node, c, t);
      Around(root.Mem(), root.node, c, t);
    }
    return null;
  }

  lemma DiffZero(a: u32, b: u32)
    requires Diff(a, b) == 0
    ensures a == b
  {}
}
