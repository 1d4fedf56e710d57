/** Looking up, listing and merging memory areas (mm/mmap.c). */
module Mmap {
  import opened Words
  import opened Zipper
  import opened AvlMemory
  import opened AvlBalance
  import opened AvlTree
  import opened AddressMap

  /** What the records say about the address map, and how they are linked into a list. */
  ghost function Descs(s: set<Vma>): map<Vma, Area>
    reads s`start, s`end, s`inode, s`pte, s`ops, s`flags, s`offset
  {
    map n | n in s :: Area(n.start, n.end, n.inode, n.pte, n.ops, n.flags, n.offset)
  }

  ghost function Nexts(s: set<Vma>): map<Vma, Vma?>
    reads s`next
  {
    map n | n in s :: n.next
  }

  /** The areas in order do not overlap. */
  ghost predicate Disjoint(s: seq<Vma>, d: map<Vma, Area>) {
    && Described(s, d) && (forall i :: 0 <= i < |s| ==> d[s[i]].start < d[s[i]].end)
    && forall i, j :: 0 <= i < j < |s| ==> d[s[i]].end <= d[s[j]].start
  }

  lemma {:induction false} DisjointIncreasing(s: seq<Vma>, space: set<Vma>)
    requires Disjoint(s, Descs(space))
    ensures Increasing(s, Ends(space)) && Sorted(s, Ends(space)) && Described(s, Descs(space)) && forall n :: n in s ==> n in space
  {}

  /** The outcome of a linear scan for the first area that ends above addr. */
  ghost predicate FirstAbove(s: seq<Vma>, key: map<Vma, nat>, addr: nat, result: Vma?) {
    && (forall n :: n in s ==> n in key)
    && if result == null then forall n :: n in s ==> key[n] <= addr
       else exists i :: 0 <= i < |s| && s[i] == result && addr < key[s[i]] && forall j :: 0 <= j < i ==> key[s[j]] <= addr
  }

  lemma {:induction false} PosFirst(s: seq<Vma>, key: map<Vma, nat>, addr: nat)
    requires Sorted(s, key)
    ensures FirstAbove(s, key, addr, Nth(s, Pos(s, key, addr)))
  {
    hide Pos;
    forall j | 0 <= j < |s| ensures j < Pos(s, key, addr) <==> key[s[j]] <= addr { Side(s, key, addr, j); }
  }

  /** find_vma: the first area, in address order, that ends above addr. */
  method FindVma(mm: Mm, addr: nat) returns (result: Vma?)
    requires mm.TreeOk() && Disjoint(InOrder(mm.tree), Descs(mm.space))
    ensures Sorted(InOrder(mm.tree), Ends(mm.space))
    ensures result == Nth(InOrder(mm.tree), Pos(InOrder(mm.tree), Ends(mm.space), addr))
    ensures FirstAbove(InOrder(mm.tree), Ends(mm.space), addr, result)
  {
    hide Holds, Avl, InOrder, Plug, Before, Sorted, Pos, Walking, Disjoint, FirstAbove;
    DisjointIncreasing(InOrder(mm.tree), mm.space);
    ghost var s, key := InOrder(mm.tree), Ends(mm.space);
    ghost var i, c: C, t: T, left: Vma? := Pos(s, key, addr), Top, mm.tree, null;
    PosFirst(s, key, addr);
    result := null;
    var tree := mm.mmapAvl;
    WalkStart(mm.tree, i);
    Around(mm.Mem(), mm.mmapAvl, c, t);
    while true
      invariant mm.At(c, t) && tree == Ptr(t) && Walking(mm.tree, i, c, t, left, result)
      decreases t
    {
      if tree == null {
        WalkEnd(mm.tree, i, c, left, result);
        return;
      }
      Around(mm.Mem(), mm.mmapAvl, c, t);
      WalkStep(mm.tree, key, addr, c, t, left, result);
      Down(mm.Mem(), mm.mmapAvl, c, t);
      if tree.end > addr {
        if tree.start < addr {
          Covering(mm.tree, key, Descs(mm.space), addr, c, t, left, result);
          return tree;
        }
        result := tree;
        c, t := ToLeft(c, t), t.left;
        tree := tree.left;
      } else {
        left := tree;
        c, t := ToRight(c, t), t.right;
        tree := tree.right;
      }
    }
  }

  /** An area around addr is the first that ends above it. */
  lemma {:induction false} Covering(tree: T, key: map<Vma, nat>, d: map<Vma, Area>, addr: nat, c: C, t: T, left: Vma?, right: Vma?)
    requires Disjoint(InOrder(tree), d) && Sorted(InOrder(tree), key) && t.Node? && t.n in key && t.n in d
    requires forall n :: n in InOrder(tree) ==> key[n] == d[n].end
    requires Walking(tree, Pos(InOrder(tree), key, addr), c, t, left, right) && d[t.n].start < addr < d[t.n].end
    ensures t.n == Nth(InOrder(tree), Pos(InOrder(tree), key, addr))
  {
    hide InOrder, Plug, Before, Pos;
    var s, j := InOrder(tree), |Before(c)| + |InOrder(t.left)|;
    Position(c, t);
    Side(s, key, addr, j);
    if j > 0 { Side(s, key, addr, j - 1); }
  }

  /** The last, and the first, area of a subtree. */
  method Rightmost(mm: Mm, node: Vma, ghost c: C, ghost t: T) returns (last: Vma)
    requires mm.At(c, t) && t.Node? && t.n == node
    ensures InOrder(t) != [] && last == InOrder(t)[|InOrder(t)| - 1]
  {
    hide Holds;
    last := node;
    ghost var c', t' := c, t;
    Around(mm.Mem(), mm.mmapAvl, c', t');
    while last.right != null
      invariant mm.At(c', t') && t'.Node? && t'.n == last && last.right == Ptr(t'.right)
      invariant InOrder(t) != [] && InOrder(t)[|InOrder(t)| - 1] == InOrder(t')[|InOrder(t')| - 1]
      decreases t'
    {
      Down(mm.Mem(), mm.mmapAvl, c', t');
      c', t' := ToRight(c', t'), t'.right;
      last := last.right;
      Around(mm.Mem(), mm.mmapAvl, c', t');
    }
  }

  method Leftmost(mm: Mm, node: Vma, ghost c: C, ghost t: T) returns (first: Vma)
    requires mm.At(c, t) && t.Node? && t.n == node
    ensures InOrder(t) != [] && first == InOrder(t)[0]
  {
    hide Holds;
    first := node;
    ghost var c', t' := c, t;
    Around(mm.Mem(), mm.mmapAvl, c', t');
    while first.left != null
      invariant mm.At(c', t') && t'.Node? && t'.n == first && first.left == Ptr(t'.left)
      invariant InOrder(t) != [] && InOrder(t)[0] == InOrder(t')[0]
      decreases t'
    {
      Down(mm.Mem(), mm.mmapAvl, c', t');
      c', t' := ToLeft(c', t'), t'.left;
      first := first.left;
      Around(mm.Mem(), mm.mmapAvl, c', t');
    }
  }

  /** How avl_neighbours ends; the last two print a message. */
  datatype Outcome = Exact | Missing | Another

  /** avl_neighbours: the areas before and after one in the tree; for an area whose key is not there, those around its
      key; if another area has it, those around the subtree t of that one. */
  method AvlNeighbours(mm: Mm, node: Vma) returns (outcome: Outcome, left: Vma?, right: Vma?, ghost j: nat, ghost c: C, ghost t: T)
    requires mm.TreeOk() && Sorted(InOrder(mm.tree), Ends(mm.space)) && Increasing(InOrder(mm.tree), Ends(mm.space))
    ensures var s := InOrder(mm.tree);
            match outcome
            case Exact => j < |s| && s[j] == node && left == Nth(s, j - 1) && right == Nth(s, j + 1)
            case Missing =>
              && (forall n :: n in s ==> n.end != node.end)
              && j == Pos(s, Ends(mm.space), node.end) && left == Nth(s, j - 1) && right == Nth(s, j)
            case Another =>
              && node !in s && j < |s| && s[j].end == node.end && Plug(c, t) == mm.tree && t.Node? && t.n == s[j]
              && left == Nth(s, |Before(c)| - 1) && right == Nth(s, |Before(c)| + |InOrder(t)|)
    ensures outcome.Exact? <==> node in InOrder(mm.tree)
    ensures outcome.Missing? <==> forall n :: n in InOrder(mm.tree) ==> n.end != node.end
  {
    hide Holds, Avl, InOrder, Plug, Before, Sorted, Increasing, Pos, Walking;
    ghost var s, key := InOrder(mm.tree), Ends(mm.space);
    ghost var i := Pos(s, key, node.end);
    var tree;
    tree, left, right, c, t := SearchKey(mm, node.end);
    if tree == null {
      WalkEnd(mm.tree, i, c, left, right);
      NotThere(s, key, node.end, i, left);
      return Missing, left, right, i, c, t;
    }
    j := Index(mm.tree, i, c, t, left, right);
    if tree != node {
      Alone(s, key, j, node);
      Beside(mm.tree, i, c, t, left, right);
      return Another, left, right, j, c, t;
    }
    outcome := Exact;
    Reached(mm.tree, i, j, c, t, left, right);
    Around(mm.Mem(), mm.mmapAvl, c, t);
    Down(mm.Mem(), mm.mmapAvl, c, t);
    if tree.left != null {
      left := Rightmost(mm, tree.left, ToLeft(c, t), t.left);
    }
    if tree.right != null {
      right := Leftmost(mm, tree.right, ToRight(c, t), t.right);
    }
  }

  /** The search of avl_neighbours: the area with the key, or none, and the areas on either side of its subtree. */
  method SearchKey(mm: Mm, k: nat) returns (tree: Vma?, left: Vma?, right: Vma?, ghost c: C, ghost t: T)
    requires mm.TreeOk() && Sorted(InOrder(mm.tree), Ends(mm.space))
    ensures mm.At(c, t) && tree == Ptr(t) && Walking(mm.tree, Pos(InOrder(mm.tree), Ends(mm.space), k), c, t, left, right)
    ensures left != null ==> left in mm.space && left.end < k
    ensures tree != null ==> tree in mm.space && tree.end == k
  {
    hide Holds, Avl, InOrder, Plug, Before, Sorted, Pos, Walking;
    ghost var key := Ends(mm.space);
    ghost var i := Pos(InOrder(mm.tree), key, k);
    c, t := Top, mm.tree;
    left, right := null, null;
    tree := mm.mmapAvl;
    WalkStart(mm.tree, i);
    Around(mm.Mem(), mm.mmapAvl, c, t);
    while true
      invariant mm.At(c, t) && tree == Ptr(t) && Walking(mm.tree, i, c, t, left, right)
      invariant left != null ==> left in mm.space && left.end < k
      decreases t
    {
      Around(mm.Mem(), mm.mmapAvl, c, t);
      if tree == null || k == tree.end {
        return;
      }
      WalkStep(mm.tree, key, k, c, t, left, right);
      Down(mm.Mem(), mm.mmapAvl, c, t);
      if k < tree.end {
        right := tree;
        c, t := ToLeft(c, t), t.left;
        tree := tree.left;
      } else {
        left := tree;
        c, t := ToRight(c, t), t.right;
        tree := tree.right;
      }
    }
  }

  /** If the last area with a key of at most k has a smaller one, no area has k. */
  lemma {:induction false} NotThere(s: seq<Vma>, key: map<Vma, nat>, k: nat, i: nat, left: Vma?)
    requires Sorted(s, key) && i == Pos(s, key, k) && left == Nth(s, i - 1) && (left != null ==> left in key && key[left] < k)
    ensures forall n :: n in s ==> n in key && key[n] != k
  {
    hide Pos;
    forall n | n in s ensures n in key && key[n] != k {
      var j :| 0 <= j < |s| && s[j] == n;
      Side(s, key, k, j);
    }
  }

  lemma {:induction false} Index(tree: T, i: nat, c: C, t: T, left: Vma?, right: Vma?) returns (j: nat)
    requires Walking(tree, i, c, t, left, right) && t.Node?
    ensures j < |InOrder(tree)| && InOrder(tree)[j] == t.n && j == |Before(c)| + |InOrder(t.left)|
  {
    Position(c, t);
    j := |Before(c)| + |InOrder(t.left)|;
  }

  lemma {:induction false} OneIndex(s: seq<Vma>, key: map<Vma, nat>, i: nat, j: nat)
    requires Increasing(s, key)
    ensures i < |s| && j < |s| && s[i] == s[j] ==> i == j
  {
  }

  lemma {:induction false} Alone(s: seq<Vma>, key: map<Vma, nat>, j: nat, n: Vma)
    requires Increasing(s, key) && j < |s| && n != s[j]
    ensures n in s ==> key[n] != key[s[j]]
  {
  }

  lemma {:induction false} Beside(tree: T, i: nat, c: C, t: T, left: Vma?, right: Vma?)
    requires Walking(tree, i, c, t, left, right)
    ensures var s := InOrder(tree);
            Plug(c, t) == tree && left == Nth(s, |Before(c)| - 1) && right == Nth(s, |Before(c)| + |InOrder(t)|)
  {
  }

  /** What is next to the subtree of a node, and what is in it. */
  lemma {:induction false} Reached(tree: T, i: nat, j: nat, c: C, t: T, left: Vma?, right: Vma?)
    requires Walking(tree, i, c, t, left, right) && t.Node? && |Before(c)| + |InOrder(t.left)| == j
    ensures var s, l, r := InOrder(tree), InOrder(t.left), InOrder(t.right);
            && (if t.left.Leaf? then left == Nth(s, j - 1) else l != [] && l[|l| - 1] == Nth(s, j - 1))
            && (if t.right.Leaf? then right == Nth(s, j + 1) else r != [] && r[0] == Nth(s, j + 1))
  {
    PlugInOrder(c, t);
    Position(c, t);
  }

  /** The list that starts at head is s. */
  ghost predicate IsList(head: Vma?, s: seq<Vma>, next: map<Vma, Vma?>) {
    && (forall n :: n in s ==> n in next)
    && head == Nth(s, 0) && forall i :: 0 <= i < |s| ==> next[s[i]] == Nth(s, i + 1)
  }

  lemma {:induction false} ListAt(head: Vma?, s: seq<Vma>, next: map<Vma, Vma?>, i: nat)
    requires IsList(head, s, next)
    ensures head == Nth(s, 0) && (i < |s| ==> s[i] in next && next[s[i]] == Nth(s, i + 1))
  {}

  /** build_mmap_avl: the tree of a list in order has the same order. */
  method BuildMmapAvl(mm: Mm, ghost areas: seq<Vma>)
    requires IsList(mm.mmap, areas, Nexts(mm.space)) && |areas| < NODES_OF_42 && Increasing(areas, Ends(mm.space))
    modifies mm`mmapAvl, mm`tree, mm.space`left, mm.space`right, mm.space`height
    ensures mm.TreeOk() && InOrder(mm.tree) == areas
  {
    hide Holds, Avl, Increasing, Pos, Sorted, Nodes, InOrder, IsList;
    ListAt(mm.mmap, areas, Nexts(mm.space), 0);
    mm.mmapAvl, mm.tree := null, Leaf;
    EmptyTree(mm.Mem());
    var vma := mm.mmap;
    ghost var k := 0;
    while vma != null
      invariant k <= |areas| && vma == Nth(areas, k) && mm.TreeOk() && InOrder(mm.tree) == areas[..k]
      decreases |areas| - k
    {
      Next(areas, Ends(mm.space), k);
      ListAt(mm.mmap, areas, Nexts(mm.space), k);
      InOrderNodes(mm.tree, vma);
      mm.AvlInsert(vma);
      vma, k := vma.next, k + 1;
    }
    assert areas[..k] == areas;
  }

  lemma {:induction false} EmptyTree(m: Mem)
    ensures var t: T := Leaf; Holds(m, null, Top, t) && Avl(t) && InOrder(t) == []
  {}

  lemma {:induction false} Next(s: seq<Vma>, key: map<Vma, nat>, k: nat)
    requires Increasing(s, key) && k < |s|
    ensures Sorted(s[..k], key) && Pos(s[..k], key, key[s[k]]) == k && s[k] !in s[..k]
    ensures s[..k][..k] + [s[k]] + s[..k][k..] == s[..k + 1]
  {
    if k > 0 {
      var i := Pos(s[..k], key, key[s[k]]);
      if i < k { Side(s[..k], key, key[s[k]], i); }
    }
  }

  /** Tree and list agree, and the areas are disjoint. */
  ghost predicate Consistent(mm: Mm)
    reads mm, mm.space`left, mm.space`right, mm.space`height, mm.space`next
    reads mm.space`start, mm.space`end, mm.space`inode, mm.space`pte, mm.space`ops, mm.space`flags, mm.space`offset
  {
    mm.TreeOk() && Agree(mm.mmap, InOrder(mm.tree), Descs(mm.space), Nexts(mm.space))
  }

  ghost predicate Agree(head: Vma?, s: seq<Vma>, d: map<Vma, Area>, next: map<Vma, Vma?>) {
    IsList(head, s, next) && Disjoint(s, d) && |s| < NODES_OF_42
  }

  /** The areas from position lo up to hi do not fit their successors. */
  ghost predicate Compared(s: seq<Vma>, d: map<Vma, Area>, lo: nat, hi: nat) {
    Described(s, d) && forall k :: lo <= k < hi && k + 1 < |s| ==> !Mergeable(d[s[k]], d[s[k + 1]])
  }

  ghost predicate SameMap(s: seq<Vma>, d: map<Vma, Area>, s': seq<Vma>, d': map<Vma, Area>) {
    Described(s, d) && Described(s', d') && forall a: nat :: Lookup(s', d', a) == Lookup(s, d, a)
  }

  /** Where merge_segments starts: at the area before the first one that ends above addr. */
  ghost function StartOf(s: seq<Vma>, key: map<Vma, nat>, addr: nat): nat
    requires Sorted(s, key)
  {
    if Pos(s, key, addr) == 0 then 0 else Pos(s, key, addr) - 1
  }

  method SetEnd(mm: Mm, n: Vma, end: nat)
    requires n in mm.space
    modifies n`end
    ensures Descs(mm.space) == old(Descs(mm.space))[n := old(Descs(mm.space))[n].(end := end)]
  {
    n.end := end;
  }

  method SetNext(mm: Mm, n: Vma, next: Vma?)
    requires n in mm.space
    modifies n`next
    ensures Nexts(mm.space) == old(Nexts(mm.space))[n := next]
  {
    n.next := next;
  }

  /** merge_segments, once two areas have been found to fit: mpnt is merged into prev, at position i. */
  method MergeNext(mm: Mm, prev: Vma, mpnt: Vma, ghost i: nat)
    requires Consistent(mm) && i + 1 < |InOrder(mm.tree)| && InOrder(mm.tree)[i] == prev && InOrder(mm.tree)[i + 1] == mpnt
    requires Mergeable(Descs(mm.space)[prev], Descs(mm.space)[mpnt])
    modifies mm`mmapAvl, mm`tree, mm.space`left, mm.space`right, mm.space`height, mm.space`end, mm.space`next
    ensures Consistent(mm)
    ensures InOrder(mm.tree) == MergedSeq(old(InOrder(mm.tree)), i)
    ensures Descs(mm.space) == old(MergedDesc(InOrder(mm.tree), Descs(mm.space), i))
  {
    hide Holds, Avl, InOrder, IsList, Mergeable, Disjoint, MergedSeq, Increasing, Sorted, Descs, Nexts;
    ghost var s, d, next := InOrder(mm.tree), Descs(mm.space), Nexts(mm.space);
    DisjointIncreasing(s, mm.space);
    Recorded(mm.space, mpnt);
    ListAt(mm.mmap, s, next, i + 1);
    UnlinkedAreas(s, d, i);
    UnlinkedList(mm.mmap, s, next, d, i);
    CutOutNext(mm, mpnt, i);
    SetEnd(mm, prev, mpnt.end);
    SetNext(mm, prev, mpnt.next);
  }

  method CutOutNext(mm: Mm, mpnt: Vma, ghost i: nat)
    requires mm.TreeOk() && Disjoint(InOrder(mm.tree), Descs(mm.space)) && |InOrder(mm.tree)| < NODES_OF_42
    requires i + 1 < |InOrder(mm.tree)| && InOrder(mm.tree)[i + 1] == mpnt
    modifies mm`mmapAvl, mm`tree, mm.space`left, mm.space`right, mm.space`height
    ensures mm.TreeOk() && InOrder(mm.tree) == MergedSeq(old(InOrder(mm.tree)), i)
  {
    hide Holds, Avl, InOrder, Increasing, Without, Disjoint;
    DisjointIncreasing(InOrder(mm.tree), mm.space);
    OneOf(InOrder(mm.tree), Ends(mm.space), i + 1);
    var _, _, _ := mm.AvlRemove(mpnt);
  }

  lemma {:induction false} Recorded(space: set<Vma>, n: Vma)
    requires n in space
    ensures n in Descs(space) && n in Nexts(space)
    ensures Descs(space)[n] == Area(n.start, n.end, n.inode, n.pte, n.ops, n.flags, n.offset) && Nexts(space)[n] == n.next
  {}

  /** Only one area has a given key, and it can be cut out. */
  lemma {:induction false} OneOf(s: seq<Vma>, key: map<Vma, nat>, i: nat)
    requires Increasing(s, key) && i < |s|
    ensures forall n :: n in s && key[n] == key[s[i]] ==> n == s[i]
    ensures Without(s, s[i]) == s[..i] + s[i + 1..]
  {
    assert s == s[..i] + [s[i]] + s[i + 1..];
    WithoutAt(s[..i], s[i], s[i + 1..]);
  }

  lemma {:induction false} MergedIndex(s: seq<Vma>, i: nat)
    requires i + 1 < |s|
    ensures var s' := MergedSeq(s, i);
            && |s'| == |s| - 1 && (forall k :: 0 <= k < |s'| ==> s'[k] == s[if k <= i then k else k + 1])
            && forall n :: n in s' ==> n in s
  {}

  lemma {:induction false} UnlinkedAreas(s: seq<Vma>, d: map<Vma, Area>, i: nat)
    requires Disjoint(s, d) && i + 1 < |s| && Mergeable(d[s[i]], d[s[i + 1]])
    ensures Disjoint(MergedSeq(s, i), MergedDesc(s, d, i))
  {
    hide MergedSeq;
    var s', d' := MergedSeq(s, i), MergedDesc(s, d, i);
    MergedIndex(s, i);
    forall k | 0 <= k < |s'| && k != i ensures s'[k] != s[i] { NotTwice(s, d, i, if k <= i then k else k + 1); }
  }

  lemma {:induction false} NotTwice(s: seq<Vma>, d: map<Vma, Area>, i: nat, j: nat)
    requires Disjoint(s, d) && i < |s| && j < |s| && i != j
    ensures s[i] != s[j]
  {}

  lemma {:induction false} UnlinkedList(head: Vma?, s: seq<Vma>, next: map<Vma, Vma?>, d: map<Vma, Area>, i: nat)
    requires IsList(head, s, next) && i + 1 < |s| && Disjoint(s, d)
    ensures IsList(head, MergedSeq(s, i), next[s[i] := next[s[i + 1]]])
    ensures |MergedSeq(s, i)| < |s|
  {
    hide MergedSeq, Disjoint;
    var s', next' := MergedSeq(s, i), next[s[i] := next[s[i + 1]]];
    MergedIndex(s, i);
    forall k | 0 <= k < |s'|
      ensures next'[s'[k]] == Nth(s', k + 1)
    {
      if k != i { NotTwice(s, d, i, if k <= i then k else k + 1); }
    }
  }

  /** merge_segments: every address stays mapped, or unmapped, as it was, and no two areas that could
      be merged are left next to each other in the range that it looks at. */
  method MergeSegments(mm: Mm, startAddr: nat, endAddr: nat)
    requires Consistent(mm)
    modifies mm`mmapAvl, mm`tree, mm.space`left, mm.space`right, mm.space`height, mm.space`end, mm.space`next
    ensures Consistent(mm)
    ensures old(Sorted(InOrder(mm.tree), Ends(mm.space)))
    ensures var s, d := InOrder(mm.tree), Descs(mm.space);
            && SameMap(old(InOrder(mm.tree)), old(Descs(mm.space)), s, d)
            && NoneLeft(s, d, old(StartOf(InOrder(mm.tree), Ends(mm.space), startAddr)), endAddr)
            && Absorbed(old(InOrder(mm.tree)), old(Descs(mm.space)), s, d, old(StartOf(InOrder(mm.tree), Ends(mm.space), startAddr)), endAddr)
  {
    hide Holds, Avl, InOrder, IsList, Disjoint, Increasing, Sorted, Pos, Descs, Nexts, Ends, Mergeable, Compared, SameMap, Absorbed;
    ghost var s, d := InOrder(mm.tree), Descs(mm.space);
    DisjointIncreasing(s, mm.space);
    var mpnt := FindVma(mm, startAddr);
    ghost var lo := StartOf(s, Ends(mm.space), startAddr);
    NoneCompared(s, d, lo);
    AllThere(s, d, lo, endAddr);
    if mpnt == null {
      Finished(s, d, lo, lo, endAddr);
      return;
    }
    var outcome, prev, next, j, _, _ := AvlNeighbours(mm, mpnt);
    OneIndex(s, Ends(mm.space), j, Pos(s, Ends(mm.space), startAddr));
    if prev == null {
      prev := mpnt;
      mpnt := next;
    }
    MergeFrom(mm, prev, mpnt, endAddr, lo);
  }

  /** The loop of merge_segments, from the area at position lo on. */
  method MergeFrom(mm: Mm, prev: Vma, mpnt: Vma?, endAddr: nat, ghost lo: nat)
    requires Consistent(mm) && lo < |InOrder(mm.tree)| && InOrder(mm.tree)[lo] == prev && mpnt == Nth(InOrder(mm.tree), lo + 1)
    modifies mm`mmapAvl, mm`tree, mm.space`left, mm.space`right, mm.space`height, mm.space`end, mm.space`next
    ensures Consistent(mm) && NoneLeft(InOrder(mm.tree), Descs(mm.space), lo, endAddr)
    ensures SameMap(old(InOrder(mm.tree)), old(Descs(mm.space)), InOrder(mm.tree), Descs(mm.space))
    ensures Absorbed(old(InOrder(mm.tree)), old(Descs(mm.space)), InOrder(mm.tree), Descs(mm.space), lo, endAddr)
  {
    hide Holds, Avl, InOrder, IsList, Disjoint, Increasing, Sorted, Descs, Nexts, Mergeable, Compared, MergedSeq, MergedDesc, SameMap, NoneLeft, Ends, Absorbed;
    ghost var i, s0, d0 := lo, InOrder(mm.tree), Descs(mm.space);
    NoneCompared(s0, d0, lo);
    AllThere(s0, d0, lo, endAddr);
    DisjointIncreasing(s0, mm.space);
    Recorded(mm.space, prev);
    ghost var from := d0[s0[lo]].start;
    var prev, mpnt := prev, mpnt;
    while mpnt != null && prev.start < endAddr
      invariant Consistent(mm) && lo <= i < |InOrder(mm.tree)|
      invariant InOrder(mm.tree)[i] == prev && mpnt == Nth(InOrder(mm.tree), i + 1)
      invariant SameMap(s0, d0, InOrder(mm.tree), Descs(mm.space))
      invariant Compared(InOrder(mm.tree), Descs(mm.space), lo, i)
      invariant Absorbed(s0, d0, InOrder(mm.tree), Descs(mm.space), lo, endAddr) && prev.start >= from
      decreases |InOrder(mm.tree)| - i
    {
      ghost var s, d := InOrder(mm.tree), Descs(mm.space);
      DisjointIncreasing(s, mm.space);
      Recorded(mm.space, prev);
      Recorded(mm.space, mpnt);
      ListAt(mm.mmap, s, Nexts(mm.space), i + 1);
      var next := mpnt.next;
      if Mergeable(AreaOf(prev), AreaOf(mpnt)) {
        MergedMap(s, d, i);
        SameMapTrans(s0, d0, s, d, MergedSeq(s, i), MergedDesc(s, d, i));
        MergedCompared(s, d, lo, i);
        MergedAbsorbed(s0, d0, s, d, lo, endAddr, i);
        MergedIndex(s, i);
        MergeNext(mm, prev, mpnt, i);
        mpnt := prev;
      } else {
        MoreCompared(s, d, lo, i);
        Later(s, d, i);
        i := i + 1;
      }
      prev, mpnt := mpnt, next;
    }
    DisjointIncreasing(InOrder(mm.tree), mm.space);
    Recorded(mm.space, prev);
    Finished(InOrder(mm.tree), Descs(mm.space), lo, i, endAddr);
  }

  /** What is left are areas from before, and one that is gone is covered by one of them that starts below endAddr, and
      not before the area at position lo. */
  ghost predicate Absorbed(s: seq<Vma>, d: map<Vma, Area>, s': seq<Vma>, d': map<Vma, Area>, lo: nat, endAddr: nat) {
    && Described(s, d) && Described(s', d')
    && (forall n :: n in s' ==> n in s && d'[n].start == d[n].start && d'[n].end >= d[n].end)
    && forall n :: n in s && n !in s' ==> lo < |s| && exists h :: h in s' && Covers(d[s[lo]].start, d'[h], d[n], endAddr)
  }

  ghost predicate Covers(from: nat, h: Area, n: Area, endAddr: nat) {
    from <= h.start < endAddr && h.start < n.start && n.end <= h.end
  }

  lemma {:induction false} AllThere(s: seq<Vma>, d: map<Vma, Area>, lo: nat, endAddr: nat)
    requires Disjoint(s, d)
    ensures Described(s, d) && Absorbed(s, d, s, d, lo, endAddr)
  {
  }

  lemma {:induction false} Later(s: seq<Vma>, d: map<Vma, Area>, i: nat)
    requires Disjoint(s, d) && i + 1 < |s|
    ensures d[s[i]].start < d[s[i + 1]].start
  {
  }

  /** Merging loses one area only. */
  lemma {:induction false} MergedHas(s: seq<Vma>, i: nat, n: Vma)
    requires i + 1 < |s| && n in s && n != s[i + 1]
    ensures n in MergedSeq(s, i)
  {
    var k :| 0 <= k < |s| && s[k] == n;
    assert MergedSeq(s, i)[if k <= i then k else k - 1] == n;
  }

  lemma {:induction false} MergedAbsorbed(s0: seq<Vma>, d0: map<Vma, Area>, s: seq<Vma>, d: map<Vma, Area>, lo: nat, endAddr: nat, i: nat)
    requires Absorbed(s0, d0, s, d, lo, endAddr) && Disjoint(s, d) && i + 1 < |s| && lo < |s0|
    requires d0[s0[lo]].start <= d[s[i]].start < endAddr
    ensures Absorbed(s0, d0, MergedSeq(s, i), MergedDesc(s, d, i), lo, endAddr)
  {
    hide MergedSeq;
    var s', d', from := MergedSeq(s, i), MergedDesc(s, d, i), d0[s0[lo]].start;
    MergedIndex(s, i);
    assert d[s[i]].end <= d[s[i + 1]].start < d[s[i + 1]].end;
    forall n | n in s0 && n !in s' ensures exists h :: h in s' && Covers(from, d'[h], d0[n], endAddr) {
      var h := Absorber(s0, d0, s, d, lo, endAddr, i, n);
    }
    hide Disjoint, Covers;
  }

  lemma {:induction false} Absorber(s0: seq<Vma>, d0: map<Vma, Area>, s: seq<Vma>, d: map<Vma, Area>, lo: nat, endAddr: nat, i: nat, n: Vma)
    returns (h: Vma)
    requires Absorbed(s0, d0, s, d, lo, endAddr) && Disjoint(s, d) && i + 1 < |s| && lo < |s0|
    requires d0[s0[lo]].start <= d[s[i]].start < endAddr && n in s0 && n !in MergedSeq(s, i)
    ensures h in MergedSeq(s, i) && Covers(d0[s0[lo]].start, MergedDesc(s, d, i)[h], d0[n], endAddr)
  {
    var p, x := s[i], s[i + 1];
    NotTwice(s, d, i, i + 1);
    assert d[p].start < d[p].end <= d[x].start < d[x].end && p in s && x in s;
    hide Disjoint, MergedSeq;
    MergedHas(s, i, p);
    h := p;
    if n in s {
      if n != x { MergedHas(s, i, n); }
    } else {
      var g :| g in s && Covers(d0[s0[lo]].start, d[g], d0[n], endAddr);
      if g != x {
        MergedHas(s, i, g);
        h := g;
      }
    }
  }

  lemma {:induction false} SameMapTrans(s: seq<Vma>, d: map<Vma, Area>, s': seq<Vma>, d': map<Vma, Area>, s'': seq<Vma>, d'': map<Vma, Area>)
    requires SameMap(s, d, s', d') && SameMap(s', d', s'', d'')
    ensures SameMap(s, d, s'', d'')
  {}

  /** No area from position lo on that starts below endAddr fits its successor. */
  ghost predicate NoneLeft(s: seq<Vma>, d: map<Vma, Area>, lo: nat, endAddr: nat) {
    Described(s, d) && forall k :: lo <= k && k + 1 < |s| && d[s[k]].start < endAddr ==> !Mergeable(d[s[k]], d[s[k + 1]])
  }

  lemma {:induction false} MoreCompared(s: seq<Vma>, d: map<Vma, Area>, lo: nat, i: nat)
    requires Compared(s, d, lo, i) && i + 1 < |s| && !Mergeable(d[s[i]], d[s[i + 1]])
    ensures Compared(s, d, lo, i + 1)
  {
    hide Mergeable;
  }

  lemma {:induction false} NoneCompared(s: seq<Vma>, d: map<Vma, Area>, lo: nat)
    requires Disjoint(s, d)
    ensures Compared(s, d, lo, lo) && SameMap(s, d, s, d)
  {}

  lemma {:induction false} Finished(s: seq<Vma>, d: map<Vma, Area>, lo: nat, i: nat, endAddr: nat)
    requires Disjoint(s, d) && Compared(s, d, lo, i) && (i + 1 >= |s| || d[s[i]].start >= endAddr)
    ensures NoneLeft(s, d, lo, endAddr)
  {
    hide Mergeable;
  }

  function AreaOf(n: Vma): Area
    reads n
  {
    Area(n.start, n.end, n.inode, n.pte, n.ops, n.flags, n.offset)
  }

  lemma {:induction false} MergedMap(s: seq<Vma>, d: map<Vma, Area>, i: nat)
    requires Disjoint(s, d) && i + 1 < |s| && Mergeable(d[s[i]], d[s[i + 1]])
    ensures SameMap(s, d, MergedSeq(s, i), MergedDesc(s, d, i))
  {
    hide Mergeable, MergedSeq, Lookup;
    forall j | 0 <= j < |s| && j != i ensures s[j] != s[i] { NotTwice(s, d, i, j); }
    assert d[s[i]].start < d[s[i]].end <= d[s[i + 1]].start < d[s[i + 1]].end;
    forall a: nat
      ensures Described(MergedSeq(s, i), MergedDesc(s, d, i))
      ensures Lookup(MergedSeq(s, i), MergedDesc(s, d, i), a) == Lookup(s, d, a)
    {
      MergeKeeps(s, d, i, a);
    }
    MergeKeeps(s, d, i, 0);
  }

  lemma {:induction false} MergedCompared(s: seq<Vma>, d: map<Vma, Area>, lo: nat, i: nat)
    requires Disjoint(s, d) && i + 1 < |s| && Compared(s, d, lo, i)
    ensures Compared(MergedSeq(s, i), MergedDesc(s, d, i), lo, i)
  {
    MergedIndex(s, i);
  }

  const PAGE_OFFSET := 0xC000_0000

  /** Areas of whole pages below the kernel's part of the address space are too few for a tree whose
      paths would not fit on the stacks. */
  lemma {:induction false} AreaCount(s: seq<Vma>, d: map<Vma, Area>)
    requires Disjoint(s, d)
    requires forall n :: n in s ==> d[n].start % PAGE_SIZE == 0 && d[n].end % PAGE_SIZE == 0 && d[n].end <= PAGE_OFFSET
    ensures |s| <= PAGE_OFFSET / PAGE_SIZE == 786_432 < NODES_OF_42
    ensures s != [] ==> d[s[|s| - 1]].end >= PAGE_SIZE * |s|
  {
    if s != [] {
      var r, n := s[..|s| - 1], s[|s| - 1];
      AreaCount(r, d);
      assert r != [] ==> d[r[|r| - 1]].end <= d[n].start;
      assert d[n].end >= d[n].start + PAGE_SIZE;
    }
  }
}
