/** The AVL tree of memory areas, ordered by vm_end (mm/mmap.c). */
module AvlTree {
  import opened Zipper
  import opened AvlMemory
  import opened AvlBalance

  /** avl_maxheight. */
  const MAX_HEIGHT := 41

  class Mm {
    /** The list of areas, linked by vm_next, and the root of their tree. */
    var mmap: Vma?
    var mmapAvl: Vma?
    ghost var space: set<Vma>
    /** The shape the areas have between operations. */
    ghost var tree: T

    ghost function Mem(): Mem
      reads this`space, space`left, space`right, space`height
    {
      Snap(space)
    }

    ghost predicate At(c: C, t: T)
      reads this`mmapAvl, this`space, space`left, space`right, space`height
    {
      Holds(Mem(), mmapAvl, c, t)
    }

    /** Balanced, and with correct height labels. */
    ghost predicate TreeOk()
      reads this, space`left, space`right, space`height
    {
      At(Top, tree) && Avl(tree)
    }

    /** *place and *place = v. */
    function Get(place: Place): Vma?
      reads this`mmapAvl, if place.AtRoot? then {} else {place.n}
    {
      match place
      case AtRoot => mmapAvl
      case AtLeft(n) => n.left
      case AtRight(n) => n.right
    }

    method Put(place: Place, v: Vma?)
      requires place.AtRoot? || place.n in space
      modifies this`mmapAvl, space`left, space`right
      ensures Except(old(Mem()), Mem(), Holder(place)) && Stored(old(Mem()), Mem(), old(mmapAvl), mmapAvl, place, v)
    {
      match place
      case AtRoot => mmapAvl := v;
      case AtLeft(n) => n.left := v;
      case AtRight(n) => n.right := v;
    }

    /** The stores of the single right turn in avl_rebalance. */
    method RelinkSingleRight(place: Place, node: Vma, l: Vma, lr: Vma?, hlr: int)
      requires {node, l} <= space && node != l && (place.AtRoot? || (place.n in space && place.n !in {node, l}))
      modifies this`mmapAvl, space`left, space`right, space`height
      ensures var m, m' := old(Mem()), Mem();
              && Except(m, m', {node, l} + Holder(place)) && Stored(m, m', old(mmapAvl), mmapAvl, place, l)
              && m'[node] == Cell(lr, m[node].right, 1 + hlr) && m'[l] == Cell(m[l].left, node, 2 + hlr)
    {
      node.left := lr;
      l.right := node;
      node.height := 1 + hlr;
      l.height := 1 + node.height;
      Put(place, l);
    }

    method TurnSingleRight(place: Place, node: Vma, l: Vma, lr: Vma?, hlr: int, ghost c: C, ghost t: T)
      requires At(c, t) && place == PlaceOf(c) && t.Node? && t.left.Node? && node == t.n && l == t.left.n
      requires lr == Ptr(t.left.right) && hlr == H(t.left.right)
      modifies this`mmapAvl, space`left, space`right, space`height
      ensures At(c, SingleRight(t))
    {
      hide Holds;
      Around(Mem(), mmapAvl, c, t);
      Names(Mem(), mmapAvl, c, t);
      ghost var m := Mem();
      RelinkSingleRight(place, node, l, lr, hlr);
      SingleRightDone(m, Mem(), old(mmapAvl), mmapAvl, c, t);
    }

    /** The stores of the double right turn. */
    method RelinkDoubleRight(node: Vma, l: Vma, k: Vma, hl: int, hlr: int)
      requires {node, l, k} <= space && node != l && k !in {node, l}
      modifies space`left, space`right, space`height
      ensures var m, m' := old(Mem()), Mem();
              && Except(m, m', {node, l, k})
              && m'[l] == Cell(m[l].left, m[k].left, hlr) && m'[node] == Cell(m[k].right, m[node].right, hlr)
              && m'[k] == Cell(l, node, hl)
    {
      l.right := k.left;
      node.left := k.right;
      k.left := l;
      k.right := node;
      node.height := hlr;
      l.height := node.height;
      k.height := hl;
    }

    method TurnDoubleRight(place: Place, node: Vma, l: Vma, k: Vma, hl: int, hlr: int, ghost c: C, ghost t: T)
      requires At(c, t) && place == PlaceOf(c) && t.Node? && t.left.Node? && t.left.right.Node?
      requires node == t.n && l == t.left.n && k == t.left.right.n && hl == H(t.left) && hlr == H(t.left.right)
      modifies this`mmapAvl, space`left, space`right, space`height
      ensures At(c, DoubleRight(t))
    {
      hide Holds;
      Around(Mem(), mmapAvl, c, t);
      Names(Mem(), mmapAvl, c, t);
      ghost var m := Mem();
      RelinkDoubleRight(node, l, k, hl, hlr);
      Put(place, k);
      DoubleRightDone(m, Mem(), old(mmapAvl), mmapAvl, c, t);
    }

    method RelinkSingleLeft(place: Place, node: Vma, r: Vma, rl: Vma?, hrl: int)
      requires {node, r} <= space && node != r && (place.AtRoot? || (place.n in space && place.n !in {node, r}))
      modifies this`mmapAvl, space`left, space`right, space`height
      ensures var m, m' := old(Mem()), Mem();
              && Except(m, m', {node, r} + Holder(place)) && Stored(m, m', old(mmapAvl), mmapAvl, place, r)
              && m'[node] == Cell(m[node].left, rl, 1 + hrl) && m'[r] == Cell(node, m[r].right, 2 + hrl)
    {
      node.right := rl;
      r.left := node;
      node.height := 1 + hrl;
      r.height := 1 + node.height;
      Put(place, r);
    }

    method TurnSingleLeft(place: Place, node: Vma, r: Vma, rl: Vma?, hrl: int, ghost c: C, ghost t: T)
      requires At(c, t) && place == PlaceOf(c) && t.Node? && t.right.Node? && node == t.n && r == t.right.n
      requires rl == Ptr(t.right.left) && hrl == H(t.right.left)
      modifies this`mmapAvl, space`left, space`right, space`height
      ensures At(c, SingleLeft(t))
    {
      hide Holds;
      Around(Mem(), mmapAvl, c, t);
      Names(Mem(), mmapAvl, c, t);
      ghost var m := Mem();
      RelinkSingleLeft(place, node, r, rl, hrl);
      SingleLeftDone(m, Mem(), old(mmapAvl), mmapAvl, c, t);
    }

    method RelinkDoubleLeft(node: Vma, r: Vma, k: Vma, hr: int, hrl: int)
      requires {node, r, k} <= space && node != r && k !in {node, r}
      modifies space`left, space`right, space`height
      ensures var m, m' := old(Mem()), Mem();
              && Except(m, m', {node, r, k})
              && m'[r] == Cell(m[k].right, m[r].right, hrl) && m'[node] == Cell(m[node].left, m[k].left, hrl)
              && m'[k] == Cell(node, r, hr)
    {
      r.left := k.right;
      node.right := k.left;
      k.right := r;
      k.left := node;
      node.height := hrl;
      r.height := node.height;
      k.height := hr;
    }

    method TurnDoubleLeft(place: Place, node: Vma, r: Vma, k: Vma, hr: int, hrl: int, ghost c: C, ghost t: T)
      requires At(c, t) && place == PlaceOf(c) && t.Node? && t.right.Node? && t.right.left.Node?
      requires node == t.n && r == t.right.n && k == t.right.left.n && hr == H(t.right) && hrl == H(t.right.left)
      modifies this`mmapAvl, space`left, space`right, space`height
      ensures At(c, DoubleLeft(t))
    {
      hide Holds;
      Around(Mem(), mmapAvl, c, t);
      Names(Mem(), mmapAvl, c, t);
      ghost var m := Mem();
      RelinkDoubleLeft(node, r, k, hr, hrl);
      Put(place, k);
      DoubleLeftDone(m, Mem(), old(mmapAvl), mmapAvl, c, t);
    }


    /** One turn of the loop of avl_rebalance; `stop` is its break. */
    method RebalanceNode(place: Place, ghost c: C, ghost t: T) returns (stop: bool)
      requires At(c, t) && place == PlaceOf(c) && t.Node? && Natural(t)
      modifies this`mmapAvl, space`left, space`right, space`height
      ensures At(c, Fixed(t)) && (stop <==> Fixed(t) == t)
    {
      hide Holds, Avl;
      Around(Mem(), mmapAvl, c, t);
      Grandchildren(Mem(), mmapAvl, c, t);
      FixedThere(t);
      var node := Get(place);
      var l, r := node.left, node.right;
      var hl := if l == null then 0 else l.height;
      var hr := if r == null then 0 else r.height;
      stop := false;
      if hr + 1 < hl {
        var ll, lr := l.left, l.right;
        var hlr := if lr == null then 0 else lr.height;
        if (if ll == null then 0 else ll.height) >= hlr {
          TurnSingleRight(place, node, l, lr, hlr, c, t);
        } else {
          TurnDoubleRight(place, node, l, lr, hl, hlr, c, t);
        }
      } else if hl + 1 < hr {
        var rr, rl := r.right, r.left;
        var hrl := if rl == null then 0 else rl.height;
        if (if rr == null then 0 else rr.height) >= hrl {
          TurnSingleLeft(place, node, r, rl, hrl, c, t);
        } else {
          TurnDoubleLeft(place, node, r, rl, hr, hrl, c, t);
        }
      } else {
        var height := (if hl < hr then hr else hl) + 1;
        if height == node.height {
          stop := true;
          return;
        }
        SetHeight(node, height, c, t);
      }
    }

    method SetHeight(node: Vma, height: int, ghost c: C, ghost t: T)
      requires At(c, t) && t.Node? && t.n == node && node in space
      modifies node`height
      ensures At(c, Node(t.left, t.n, height, t.right))
    {
      ghost var m, w := Mem(), {t.n};
      node.height := height;
      Apart(c, t);
      Frame(m, Mem(), t.left, w);
      Frame(m, Mem(), t.right, w);
      FrameCtx(m, Mem(), c, t.n, mmapAvl, w);
    }

    /** avl_rebalance: if the subtree t below the places on the stack is balanced, and at most one higher or lower than
        the labels above it say, so is the tree; whatever the labels, the order is the same. */
    method Rebalance(stack: array<Place>, count: nat, ghost c: C, ghost t: T, ghost h: int) returns (ghost t': T)
      requires At(c, t) && Natural(t) && NaturalCtx(c) && count <= stack.Length && stack[..count] == StackOf(c)
      modifies this`mmapAvl, space`left, space`right, space`height
      ensures At(Top, t') && InOrder(t') == InOrder(Plug(c, t))
      ensures RebalanceInv(c, t, h) ==> Avl(t')
    {
      hide Holds, Avl, InOrder, Plug, RebalanceInv, Natural, NaturalCtx;
      var count: nat := count;
      ghost var c1, t1, h1 := c, t, h;
      ghost var fits := RebalanceInv(c, t, h);
      while count > 0
        invariant At(c1, t1) && count <= stack.Length && stack[..count] == StackOf(c1) && Natural(t1) && NaturalCtx(c1)
        invariant InOrder(Plug(c1, t1)) == InOrder(Plug(c, t)) && (fits ==> RebalanceInv(c1, t1, h1))
        decreases count
      {
        count := count - 1;
        ghost var w := Whole(c1, t1);
        Up(Mem(), mmapAvl, c1, t1);
        StepKeeps(c1, t1);
        if fits { Step(c1, t1, h1); }
        assert stack[..count] == StackOf(c1.up) && stack[count] == PlaceOf(c1.up) by { assert stack[..count + 1][..count] == stack[..count]; }
        var stop := RebalanceNode(stack[count], c1.up, w);
        c1, t1, h1 := c1.up, Fixed(w), c1.tag;
        if stop {
          assert fits ==> H(t1) == h1;
          break;
        }
      }
      assert |StackOf(c1)| == 0 ==> c1.Top?;
      if fits { Done(c1, t1, h1); }
      ToRoot(Mem(), mmapAvl, c1, t1);
      t' := Plug(c1, t1);
    }

    /** *stack_ptr++ = place. */
    static method Push(stack: array<Place>, count: nat, place: Place)
      requires count < stack.Length
      modifies stack
      ensures stack[..count + 1] == old(stack[..count]) + [place]
    {
      stack[count] := place;
    }

    /** The walk of avl_insert and avl_insert_neighbours: the empty place for key, the places above it
        on the stack, and the areas next to it. */
    method WalkDown(stack: array<Place>, key: nat)
      returns (count: nat, place: Place, left: Vma?, right: Vma?, ghost c: C)
      requires TreeOk() && stack.Length == MAX_HEIGHT && |InOrder(tree)| < NODES_OF_42 && Sorted(InOrder(tree), Ends(space))
      modifies stack
      ensures At(c, Leaf) && place == PlaceOf(c) && count <= stack.Length && stack[..count] == StackOf(c)
      ensures var s := InOrder(tree);
              Plug(c, Leaf) == tree && |Before(c)| == Pos(s, Ends(space), key) && left == Nth(s, |Before(c)| - 1) && right == Nth(s, |Before(c)|)
    {
      hide Holds, Avl, InOrder, Plug, Before, Sorted, Pos, Walking, StackOf, Depth, ToLeft, ToRight;
      ghost var t, key', i := tree, Ends(space), Pos(InOrder(tree), Ends(space), key);
      c, count, place, left, right := Top, 0, AtRoot, null, null;
      WalkStart(tree, i);
      NoStack();
      HeightBound(tree);
      while true
        invariant At(c, t) && place == PlaceOf(c) && Walking(tree, i, c, t, left, right)
        invariant count == Depth(c) <= stack.Length && stack[..count] == StackOf(c)
        decreases t
      {
        Around(Mem(), mmapAvl, c, t);
        var node := Get(place);
        if node == null {
          break;
        }
        Deep(tree, i, c, t, left, right);
        WalkStep(tree, key', key, c, t, left, right);
        Down(Mem(), mmapAvl, c, t);
        Push(stack, count, place);
        count := count + 1;
        if key < node.end {
          right := node;
          place := AtLeft(node);
          c, t := ToLeft(c, t), t.left;
        } else {
          left := node;
          place := AtRight(node);
          c, t := ToRight(c, t), t.right;
        }
      }
      WalkEnd(tree, i, c, left, right);
    }

    method LinkLeaf(node: Vma, place: Place, ghost c: C)
      requires At(c, Leaf) && place == PlaceOf(c) && node in space && node !in CtxNodes(c)
      modifies this`mmapAvl, space`left, space`right, space`height
      ensures At(c, Node(Leaf, node, 1, Leaf))
    {
      Around(Mem(), mmapAvl, c, Leaf);
      if !c.Top? { assert c.n in CtxNodes(c); }
      ghost var m := Mem();
      node.left, node.right, node.height := null, null, 1;
      Put(place, node);
      Relink(m, Mem(), c, null, old(mmapAvl), node, mmapAvl, {node} + Holder(place));
      ghost var t: T := Node(Leaf, node, 1, Leaf);
      assert Nodes(t) == {node} && Distinct(t) && Rep(Mem(), t);
    }

    /** Links a new area into an empty place and rebalances. */
    method Attach(stack: array<Place>, count: nat, place: Place, node: Vma, ghost c: C)
      requires TreeOk() && node in space && node !in Nodes(tree)
      requires At(c, Leaf) && Plug(c, Leaf) == tree && place == PlaceOf(c) && count <= stack.Length && stack[..count] == StackOf(c)
      modifies this`mmapAvl, this`tree, space`left, space`right, space`height
      ensures TreeOk()
      ensures var s, i := old(InOrder(tree)), |Before(c)|; i <= |s| && InOrder(tree) == s[..i] + [node] + s[i..]
    {
      hide Holds, Avl, InOrder, Plug, Nodes, CtxNodes, Before, StackOf;
      LeafPlace(c, node);
      LinkLeaf(node, place, c);
      FitNatural(c, Node(Leaf, node, 1, Leaf), 0);
      tree := Rebalance(stack, count, c, Node(Leaf, node, 1, Leaf), 0);
    }

    /** avl_insert_neighbours. */
    method AvlInsertNeighbours(node: Vma) returns (left: Vma?, right: Vma?)
      requires TreeOk() && node in space && node !in Nodes(tree)
      requires |InOrder(tree)| < NODES_OF_42 && Sorted(InOrder(tree), Ends(space))
      modifies this`mmapAvl, this`tree, space`left, space`right, space`height
      ensures TreeOk()
      ensures var s := old(InOrder(tree)); var i := Pos(s, Ends(space), node.end);
              InOrder(tree) == s[..i] + [node] + s[i..] && left == Nth(s, i - 1) && right == Nth(s, i)
      ensures Sorted(InOrder(tree), Ends(space))
      ensures old(Increasing(InOrder(tree), Ends(space)) && NewKey(InOrder(tree), Ends(space), node)) ==>
                Increasing(InOrder(tree), Ends(space))
    {
      hide Holds, Avl, InOrder, Plug, Sorted, Increasing, NewKey, Pos, Nodes, CtxNodes, Nth, Before, StackOf, Depth;
      InsertKeeps(InOrder(tree), Ends(space), node);
      hide Ends;
      var stack := new Place[MAX_HEIGHT];
      var count, place;
      ghost var c;
      count, place, left, right, c := WalkDown(stack, node.end);
      Attach(stack, count, place, node, c);
    }

    /** avl_insert. */
    method AvlInsert(node: Vma)
      requires TreeOk() && node in space && node !in Nodes(tree)
      requires |InOrder(tree)| < NODES_OF_42 && Sorted(InOrder(tree), Ends(space))
      modifies this`mmapAvl, this`tree, space`left, space`right, space`height
      ensures TreeOk()
      ensures var s := old(InOrder(tree)); var i := Pos(s, Ends(space), node.end); InOrder(tree) == s[..i] + [node] + s[i..]
      ensures Sorted(InOrder(tree), Ends(space))
      ensures old(Increasing(InOrder(tree), Ends(space)) && NewKey(InOrder(tree), Ends(space), node)) ==>
                Increasing(InOrder(tree), Ends(space))
    {
      hide Holds, Avl, InOrder, Plug, Sorted, Increasing, NewKey, Pos, Nodes, CtxNodes, Nth, Before, StackOf, Depth;
      InsertKeeps(InOrder(tree), Ends(space), node);
      hide Ends;
      var stack := new Place[MAX_HEIGHT];
      var count, place, left, right;
      ghost var c;
      count, place, left, right, c := WalkDown(stack, node.end);
      Attach(stack, count, place, node, c);
    }

    /** The search of avl_remove; the place of the node found is on the stack too. */
    method FindNode(stack: array<Place>, key: nat) returns (found: bool, count: nat, place: Place, ghost c: C, ghost t: T)
      requires TreeOk() && stack.Length == MAX_HEIGHT && |InOrder(tree)| < NODES_OF_42 && Increasing(InOrder(tree), Ends(space))
      modifies stack
      ensures found <==> exists n :: n in InOrder(tree) && n.end == key
      ensures found ==> At(c, t) && Plug(c, t) == tree && t.Node? && t.n.end == key
      ensures found ==> place == PlaceOf(c) && 0 < count <= stack.Length && stack[..count] == StackOf(c) + [place]
    {
      hide Holds, Avl, InOrder, Plug, Before, Increasing, Seeking, StackOf, Depth, ToLeft, ToRight;
      ghost var s, key' := InOrder(tree), Ends(space);
      t, c, count, place := tree, Top, 0, AtRoot;
      SeekStart(tree, key', key);
      NoStack();
      HeightBound(tree);
      while true
        invariant At(c, t) && place == PlaceOf(c) && Seeking(tree, key', key, c, t)
        invariant count == Depth(c) <= stack.Length && stack[..count] == StackOf(c)
        decreases t
      {
        Around(Mem(), mmapAvl, c, t);
        var node := Get(place);
        if node == null {
          SeekEnd(tree, key', key, c);
          found := false;
          return;
        }
        SeekStep(tree, key', key, c, t);
        Down(Mem(), mmapAvl, c, t);
        Push(stack, count, place);
        count := count + 1;
        if key == node.end {
          break;
        }
        if key < node.end {
          place := AtLeft(node);
          c, t := ToLeft(c, t), t.left;
        } else {
          place := AtRight(node);
          c, t := ToRight(c, t), t.right;
        }
      }
      found := true;
    }

    /** Taking a node with at most one child, or a whole subtree, out of its place. */
    method TakeOut(place: Place, child: Vma?, ghost c: C, ghost t: T, ghost t': T)
      requires At(c, t) && place == PlaceOf(c) && t.Node? && (t'.Leaf? || (t' == OnlyChild(t) && (t.left.Leaf? || t.right.Leaf?))) && child == Ptr(t')
      modifies this`mmapAvl, space`left, space`right
      ensures At(c, t')
    {
      hide Holds;
      Around(Mem(), mmapAvl, c, t);
      ghost var m := Mem();
      Put(place, child);
      TakenOut(m, Mem(), old(mmapAvl), mmapAvl, c, t, t');
    }

    /** node replaces node_to_delete. */
    method TakePlace(place: Place, was: Vma, node: Vma, ghost c: C, ghost t: T)
      requires At(c, t) && place == PlaceOf(c) && t.Node? && t.n == was && node in space && node !in Nodes(t) && node !in CtxNodes(c)
      modifies this`mmapAvl, space`left, space`right, space`height
      ensures At(c, Node(t.left, node, t.tag, t.right))
    {
      hide Holds;
      Around(Mem(), mmapAvl, c, t);
      if !c.Top? { assert c.n in CtxNodes(c); }
      assert was in Nodes(t);
      ghost var m := Mem();
      node.left := was.left;
      node.right := was.right;
      node.height := was.height;
      Put(place, node);
      PlaceTaken(m, Mem(), old(mmapAvl), mmapAvl, c, t, node);
    }

    /** avl_remove: from the node's left child down to its predecessor, with the places on the stack. */
    method Predecessor(stack: array<Place>, count: nat, was: Vma, ghost c: C, ghost t: T)
      returns (count': nat, place: Place, node: Vma, ghost sp: C, ghost s: T)
      requires At(c, t) && t.Node? && t.n == was && t.left.Node? && Avl(Plug(c, t)) && H(Plug(c, t)) <= stack.Length
      requires count <= stack.Length && stack[..count] == StackOf(PredBase(c, t))
      modifies stack
      ensures At(Append(sp, PredBase(c, t)), s) && s.Node? && s.n == node && s.right.Leaf?
      ensures Plug(sp, s) == t.left && After(sp) == [] && place == PlaceOf(Append(sp, PredBase(c, t)))
      ensures count' <= stack.Length && stack[..count'] == StackOf(Append(sp, PredBase(c, t)))
      ensures Depth(c) + 1 < stack.Length
    {
      hide Holds, Avl, StackOf, Depth;
      ghost var b := PredBase(c, t);
      sp, s := Top, t.left;
      StackLen(b);
      Down(Mem(), mmapAvl, c, t);
      DeepBelow(c, t, Top, t.left);
      count', place := count, AtLeft(was);
      Around(Mem(), mmapAvl, c, t);
      Around(Mem(), mmapAvl, b, s);
      node := was.left;
      while node.right != null
        invariant At(Append(sp, b), s) && s.Node? && s.n == node && Plug(sp, s) == t.left && After(sp) == []
        invariant place == PlaceOf(Append(sp, b)) && node.right == Ptr(s.right)
        invariant count' == Depth(Append(sp, b)) <= stack.Length && stack[..count'] == StackOf(Append(sp, b))
        decreases s
      {
        Down(Mem(), mmapAvl, Append(sp, b), s);
        DeepBelow(c, t, sp, s);
        Push(stack, count', place);
        count' := count' + 1;
        place := AtRight(node);
        sp, s := InRight(sp, s.left, s.n, s.tag), s.right;
        Around(Mem(), mmapAvl, Append(sp, b), s);
        node := node.right;
      }
    }

    /** avl_remove, for a node with a left child, up to the rebalancing: its predecessor leaves its own
        place and replaces it, and the saved path is patched. */
    method ReplaceByPredecessor(stack: array<Place>, count: nat, placeToDelete: Place, was: Vma, ghost c: C, ghost t: T)
      returns (count': nat, ghost c': C, ghost s: T)
      requires At(c, t) && t.Node? && t.n == was && t.left.Node? && Avl(Plug(c, t)) && H(Plug(c, t)) <= stack.Length
      requires count <= stack.Length && stack[..count] == StackOf(c) + [placeToDelete] && placeToDelete == PlaceOf(c)
      modifies stack, this`mmapAvl, space`left, space`right, space`height
      ensures s.Node? && At(c', s.left) && RebalanceInv(c', s.left, s.tag)
      ensures count' <= stack.Length && stack[..count'] == StackOf(c')
      ensures InOrder(Plug(c', s.left)) == Without(InOrder(Plug(c, t)), t.n)
    {
      hide Holds, Avl, InOrder, Plug, StackOf, Depth, Nodes, CtxNodes, Without, RebalanceInv;
      ghost var b := PredBase(c, t);
      ghost var sp;
      StackBase(c, t);
      StackLen(c);
      Separate(Mem(), mmapAvl, c, t);
      var place, node;
      count', place, node, sp, s := Predecessor(stack, count, was, c, t);
      Around(Mem(), mmapAvl, Append(sp, b), s);
      Fresh(Mem(), mmapAvl, c, t, sp, s);
      TakeOut(place, node.left, Append(sp, b), s, s.left);
      ghost var l1 := Plug(sp, s.left);
      Along(Mem(), mmapAvl, sp, b, s.left);
      Up(Mem(), mmapAvl, b, l1);
      TakePlace(placeToDelete, was, node, c, Node(l1, t.n, t.tag, t.right));
      ghost var b' := InLeft(c, node, t.tag, t.right);
      Up(Mem(), mmapAvl, b', l1);
      Along(Mem(), mmapAvl, sp, b', s.left);
      c' := Append(sp, b');
      Patched(stack[..count'], count, c, t, sp, node);
      stack[count] := AtLeft(node);
      Replaced(c, t, sp, s);
    }

    /** avl_remove.  If another area has the key of one that is not in the tree, that other one is cut out, with all
        areas below it. */
    method AvlRemove(node: Vma) returns (found: bool, ghost c: C, ghost t: T)
      requires TreeOk() && |InOrder(tree)| < NODES_OF_42 && Increasing(InOrder(tree), Ends(space))
      requires node in space
      requires (exists n :: n in InOrder(tree) && n.end == node.end && n != node) ==> node.left == null && node.right == null
      modifies this`mmapAvl, this`tree, space`left, space`right, space`height
      ensures At(Top, tree) && Increasing(InOrder(tree), Ends(space))
      ensures found <==> exists n :: n in old(InOrder(tree)) && n.end == node.end
      ensures !found ==> TreeOk() && InOrder(tree) == old(InOrder(tree))
      ensures node in old(InOrder(tree)) ==> found && TreeOk() && InOrder(tree) == Without(old(InOrder(tree)), node)
      ensures found && node !in old(InOrder(tree)) ==>
                && Plug(c, t) == old(tree) && t.Node? && t.n.end == node.end
                && InOrder(tree) == Before(c) + After(c) && InOrder(tree) != old(InOrder(tree))
    {
      hide Holds, Avl, InOrder, Plug, StackOf, Without, Increasing, Before, After;
      ghost var s := InOrder(tree);
      RemoveIncreasing(s, Ends(space), node);
      var stack := new Place[MAX_HEIGHT];
      var count, place;
      found, count, place, c, t := FindNode(stack, node.end);
      if !found {
        return;
      }
      Found(c, t);
      Around(Mem(), mmapAvl, c, t);
      OneEnd(s, Ends(space), t.n, node);
      CutIncreasing(c, t, Ends(space));
      hide Ends;
      Delete(stack, count, place, node, c, t);
    }

    /** The rest of avl_remove once the place of the key is known. */
    method Delete(stack: array<Place>, count: nat, place: Place, node: Vma, ghost c: C, ghost t: T)
      requires TreeOk() && |InOrder(tree)| < NODES_OF_42 && stack.Length == MAX_HEIGHT
      requires At(c, t) && Plug(c, t) == tree && t.Node? && (t.n == node || (node.left == null && node.right == null))
      requires place == PlaceOf(c) && 0 < count <= stack.Length && stack[..count] == StackOf(c) + [place]
      modifies stack, this`mmapAvl, this`tree, space`left, space`right, space`height
      ensures At(Top, tree)
      ensures t.n == node ==> Avl(tree) && InOrder(tree) == Without(old(InOrder(tree)), node)
      ensures t.n != node ==> InOrder(tree) == Before(c) + After(c)
    {
      hide Holds, Avl, InOrder, Plug, StackOf, Depth, Nodes, CtxNodes, Without, RebalanceInv, Before, After;
      HeightBound(tree);
      Around(Mem(), mmapAvl, c, t);
      if node.left == null {
        CutOut(stack, count, place, node, c, t);
      } else {
        var count';
        ghost var c', s;
        count', c', s := ReplaceByPredecessor(stack, count, place, node, c, t);
        FitNatural(c', s.left, s.tag);
        tree := Rebalance(stack, count', c', s.left, s.tag);
      }
    }

    /** The case of no left child. */
    method CutOut(stack: array<Place>, count: nat, place: Place, node: Vma, ghost c: C, ghost t: T)
      requires TreeOk() && At(c, t) && Plug(c, t) == tree && t.Node?
      requires if t.n == node then t.left.Leaf? && node.right == Ptr(t.right) else node.right == null
      requires place == PlaceOf(c) && 0 < count <= stack.Length && stack[..count] == StackOf(c) + [place]
      modifies this`mmapAvl, this`tree, space`left, space`right, space`height
      ensures At(Top, tree)
      ensures t.n == node ==> Avl(tree) && InOrder(tree) == Without(old(InOrder(tree)), node)
      ensures t.n != node ==> InOrder(tree) == Before(c) + After(c)
    {
      hide Holds, Avl, InOrder, Plug, StackOf, Depth, Nodes, CtxNodes, Without, RebalanceInv, Before, After;
      var count: nat := count;
      ghost var t' := if t.n == node then t.right else Leaf;
      Separate(Mem(), mmapAvl, c, t);
      CutNatural(c, t, t');
      if t.n == node { OneLess(c, t); } else { AllCut(c); }
      TakeOut(place, node.right, c, t, t');
      count := count - 1;
      StackDrop(stack, count, c);
      tree := Rebalance(stack, count, c, t', t.tag);
    }
  }

  lemma {:induction false} SingleRightDone(m: Mem, m': Mem, root: Vma?, root': Vma?, c: C, t: T)
    requires Holds(m, root, c, t) && t.Node? && t.left.Node? && {t.n, t.left.n} <= m.Keys && (!c.Top? ==> c.n in m)
    requires Except(m, m', {t.n, t.left.n} + Holder(PlaceOf(c))) && Stored(m, m', root, root', PlaceOf(c), t.left.n)
    requires m'[t.n] == Cell(Ptr(t.left.right), Ptr(t.right), 1 + H(t.left.right))
    requires m'[t.left.n] == Cell(Ptr(t.left.left), t.n, 2 + H(t.left.right))
    ensures Holds(m', root', c, SingleRight(t))
  {
    var w, l := {t.n, t.left.n} + Holder(PlaceOf(c)), t.left;
    Apart(c, t);
    Apart(InLeft(c, t.n, t.tag, t.right), l);
    Relink(m, m', c, t.n, root, l.n, root', w);
    assert Rep(m, l);
    Frame(m, m', l.left, w);
    Frame(m, m', l.right, w);
    Frame(m, m', t.right, w);
    SingleKeeps(t);
  }

  lemma {:induction false} DoubleRightDone(m: Mem, m': Mem, root: Vma?, root': Vma?, c: C, t: T)
    requires Holds(m, root, c, t) && t.Node? && t.left.Node? && t.left.right.Node?
    requires {t.n, t.left.n, t.left.right.n} <= m.Keys && (!c.Top? ==> c.n in m)
    requires Except(m, m', {t.n, t.left.n, t.left.right.n} + Holder(PlaceOf(c)))
    requires Stored(m, m', root, root', PlaceOf(c), t.left.right.n)
    requires var l, k := t.left, t.left.right;
             && m'[l.n] == Cell(Ptr(l.left), Ptr(k.left), H(k)) && m'[t.n] == Cell(Ptr(k.right), Ptr(t.right), H(k))
             && m'[k.n] == Cell(l.n, t.n, H(l))
    ensures Holds(m', root', c, DoubleRight(t))
  {
    var l, k := t.left, t.left.right;
    var w := {t.n, l.n, k.n} + Holder(PlaceOf(c));
    Inside(c, t, l, k);
    Relink(m, m', c, t.n, root, k.n, root', w);
    hide RepCtx, Stored;
    DoubleRightRep(m, m', t, w);
    DoubleRightKeeps(t);
  }

  lemma {:induction false} DoubleRightRep(m: Mem, m': Mem, t: T, w: set<Vma?>)
    requires t.Node? && t.left.Node? && t.left.right.Node? && Distinct(t) && Rep(m, t) && Except(m, m', w)
    requires forall n :: n in Nodes(t) && n in w ==> n == t.n || n == t.left.n || n == t.left.right.n
    requires {t.n, t.left.n, t.left.right.n} <= m'.Keys
    requires var l, k := t.left, t.left.right;
             && m'[l.n] == Cell(Ptr(l.left), Ptr(k.left), H(k)) && m'[t.n] == Cell(Ptr(k.right), Ptr(t.right), H(k))
             && m'[k.n] == Cell(l.n, t.n, H(l))
    ensures Rep(m', DoubleRight(t))
  {
    var l, k := t.left, t.left.right;
    assert Rep(m, l) && Rep(m, k);
    Lower(t, l);
    Lower(l, k);
    hide Distinct, Nodes, Except;
    Frame(m, m', l.left, w);
    Frame(m, m', k.left, w);
    Frame(m, m', k.right, w);
    Frame(m, m', t.right, w);
  }

  lemma {:induction false} SingleLeftDone(m: Mem, m': Mem, root: Vma?, root': Vma?, c: C, t: T)
    requires Holds(m, root, c, t) && t.Node? && t.right.Node? && {t.n, t.right.n} <= m.Keys && (!c.Top? ==> c.n in m)
    requires Except(m, m', {t.n, t.right.n} + Holder(PlaceOf(c))) && Stored(m, m', root, root', PlaceOf(c), t.right.n)
    requires m'[t.n] == Cell(Ptr(t.left), Ptr(t.right.left), 1 + H(t.right.left))
    requires m'[t.right.n] == Cell(t.n, Ptr(t.right.right), 2 + H(t.right.left))
    ensures Holds(m', root', c, SingleLeft(t))
  {
    var w, r := {t.n, t.right.n} + Holder(PlaceOf(c)), t.right;
    Apart(c, t);
    Apart(InRight(c, t.left, t.n, t.tag), r);
    Relink(m, m', c, t.n, root, r.n, root', w);
    assert Rep(m, r);
    Frame(m, m', r.right, w);
    Frame(m, m', r.left, w);
    Frame(m, m', t.left, w);
    SingleKeeps(t);
  }

  lemma {:induction false} DoubleLeftDone(m: Mem, m': Mem, root: Vma?, root': Vma?, c: C, t: T)
    requires Holds(m, root, c, t) && t.Node? && t.right.Node? && t.right.left.Node?
    requires {t.n, t.right.n, t.right.left.n} <= m.Keys && (!c.Top? ==> c.n in m)
    requires Except(m, m', {t.n, t.right.n, t.right.left.n} + Holder(PlaceOf(c)))
    requires Stored(m, m', root, root', PlaceOf(c), t.right.left.n)
    requires var r, k := t.right, t.right.left;
             && m'[r.n] == Cell(Ptr(k.right), Ptr(r.right), H(k)) && m'[t.n] == Cell(Ptr(t.left), Ptr(k.left), H(k))
             && m'[k.n] == Cell(t.n, r.n, H(r))
    ensures Holds(m', root', c, DoubleLeft(t))
  {
    var r, k := t.right, t.right.left;
    var w := {t.n, r.n, k.n} + Holder(PlaceOf(c));
    Inside(c, t, r, k);
    Relink(m, m', c, t.n, root, k.n, root', w);
    hide RepCtx, Stored;
    DoubleLeftRep(m, m', t, w);
    DoubleLeftKeeps(t);
  }

  lemma {:induction false} DoubleLeftRep(m: Mem, m': Mem, t: T, w: set<Vma?>)
    requires t.Node? && t.right.Node? && t.right.left.Node? && Distinct(t) && Rep(m, t) && Except(m, m', w)
    requires forall n :: n in Nodes(t) && n in w ==> n == t.n || n == t.right.n || n == t.right.left.n
    requires {t.n, t.right.n, t.right.left.n} <= m'.Keys
    requires var r, k := t.right, t.right.left;
             && m'[r.n] == Cell(Ptr(k.right), Ptr(r.right), H(k)) && m'[t.n] == Cell(Ptr(t.left), Ptr(k.left), H(k))
             && m'[k.n] == Cell(t.n, r.n, H(r))
    ensures Rep(m', DoubleLeft(t))
  {
    var r, k := t.right, t.right.left;
    assert Rep(m, r) && Rep(m, k);
    Lower(t, r);
    Lower(r, k);
    hide Distinct, Nodes, Except;
    Frame(m, m', r.right, w);
    Frame(m, m', k.left, w);
    Frame(m, m', k.right, w);
    Frame(m, m', t.left, w);
  }

  /** The nodes below t's child and grandchild are t's, and are none of the three. */
  lemma {:induction false} Lower(t: T, l: T)
    requires t.Node? && l.Node? && Distinct(t) && (l == t.left || l == t.right)
    ensures Distinct(l) && Nodes(l) <= Nodes(t) && t.n !in Nodes(l) && t.n !in Nodes(t.left) && t.n !in Nodes(t.right)
    ensures l.n in Nodes(l) && l.n !in Nodes(l.left) && l.n !in Nodes(l.right) && Nodes(t.left) !! Nodes(t.right)
    ensures Nodes(l.left) <= Nodes(l) && Nodes(l.right) <= Nodes(l) && Nodes(t.left) <= Nodes(t) && Nodes(t.right) <= Nodes(t)
    ensures Nodes(l.left) !! Nodes(l.right)
  {
  }

  lemma {:induction false} Inside(c: C, t: T, l: T, k: T)
    requires t.Node? && l.Node? && k.Node? && (l == t.left || l == t.right) && (k == l.left || k == l.right)
    requires Nodes(t) !! CtxNodes(c)
    ensures t.n in Nodes(t) && l.n in Nodes(t) && k.n in Nodes(t)
    ensures forall n :: n in CtxNodes(c) ==> n !in Nodes(t)
    ensures !c.Top? ==> c.n in CtxNodes(c)
  {
    assert Nodes(k) <= Nodes(l) <= Nodes(t);
  }

  lemma {:induction false} Grandchildren(m: Mem, root: Vma?, c: C, t: T)
    requires Holds(m, root, c, t) && t.Node?
    ensures t.left.Node? ==> Labelled(m, t.left.left) && Labelled(m, t.left.right)
    ensures t.right.Node? ==> Labelled(m, t.right.left) && Labelled(m, t.right.right)
  {
    assert Rep(m, t.left) && Rep(m, t.right);
    if t.left.Node? { assert Rep(m, t.left.left) && Rep(m, t.left.right); }
    if t.right.Node? { assert Rep(m, t.right.left) && Rep(m, t.right.right); }
  }

  ghost predicate Labelled(m: Mem, t: T) { t.Node? ==> t.n in m && m[t.n].height == t.tag }

  /** A child that is too high is there, and so is its inner child if that is the higher one. */
  lemma {:induction false} FixedThere(t: T)
    requires t.Node? && Natural(t)
    ensures H(t.right) + 1 < H(t.left) ==> t.left.Node? && (H(t.left.left) < H(t.left.right) ==> t.left.right.Node?)
    ensures H(t.left) + 1 < H(t.right) ==> t.right.Node? && (H(t.right.right) < H(t.right.left) ==> t.right.left.Node?)
  {
    if t.left.Node? { assert Natural(t.left.left); }
    if t.right.Node? { assert Natural(t.right.right); }
  }

  // Order

  ghost function Ends(s: set<Vma>): map<Vma, nat>
    reads s`end
  {
    map n | n in s :: n.end
  }

  ghost predicate Sorted(s: seq<Vma>, key: map<Vma, nat>) {
    && (forall n :: n in s ==> n in key)
    && forall i, j :: 0 <= i < j < |s| ==> key[s[i]] <= key[s[j]]
  }

  /** How many areas at the front have keys of at most k. */
  ghost function Pos(s: seq<Vma>, key: map<Vma, nat>, k: nat): (i: nat)
    requires Sorted(s, key)
    ensures i <= |s|
  {
    if s == [] || k < key[s[0]] then 0 else 1 + Pos(s[1..], key, k)
  }

  lemma {:induction false} Side(s: seq<Vma>, key: map<Vma, nat>, k: nat, j: nat)
    requires Sorted(s, key) && j < |s|
    ensures j < Pos(s, key, k) <==> key[s[j]] <= k
  {
    if key[s[0]] <= k && j > 0 { Side(s[1..], key, k, j - 1); }
  }

  ghost function Nth(s: seq<Vma>, i: int): Vma? { if 0 <= i < |s| then s[i] else null }

  lemma {:induction false} Down(m: Mem, root: Vma?, c: C, t: T)
    requires Holds(m, root, c, t) && t.Node?
    ensures Holds(m, root, ToLeft(c, t), t.left) && PlaceOf(ToLeft(c, t)) == AtLeft(t.n)
    ensures Holds(m, root, ToRight(c, t), t.right) && PlaceOf(ToRight(c, t)) == AtRight(t.n)
    ensures StackOf(ToLeft(c, t)) == StackOf(c) + [PlaceOf(c)] == StackOf(ToRight(c, t))
    ensures Depth(ToLeft(c, t)) == Depth(c) + 1 == Depth(ToRight(c, t))
  {
    Up(m, root, ToLeft(c, t), t.left);
    Up(m, root, ToRight(c, t), t.right);
  }

  /** A walk towards position i in the order of the whole tree: what is known at the subtree t. */
  ghost predicate Walking(tree: T, i: nat, c: C, t: T, left: Vma?, right: Vma?) {
    var s, lo := InOrder(tree), |Before(c)|;
    && Plug(c, t) == tree && lo <= i <= lo + |InOrder(t)| <= |s|
    && left == Nth(s, lo - 1) && right == Nth(s, lo + |InOrder(t)|)
  }

  lemma {:induction false} WalkStart(tree: T, i: nat)
    requires i <= |InOrder(tree)|
    ensures Walking(tree, i, Top, tree, null, null)
  {}

  lemma {:induction false} WalkEnd(tree: T, i: nat, c: C, left: Vma?, right: Vma?)
    requires Walking(tree, i, c, Leaf, left, right)
    ensures Plug(c, Leaf) == tree && i == |Before(c)| && left == Nth(InOrder(tree), i - 1) && right == Nth(InOrder(tree), i)
  {}

  lemma {:induction false} WalkStep(tree: T, key: map<Vma, nat>, k: nat, c: C, t: T, left: Vma?, right: Vma?)
    requires Sorted(InOrder(tree), key) && t.Node? && t.n in key
    requires Walking(tree, Pos(InOrder(tree), key, k), c, t, left, right)
    ensures var i := Pos(InOrder(tree), key, k);
            if k < key[t.n] then Walking(tree, i, ToLeft(c, t), t.left, left, t.n) else Walking(tree, i, ToRight(c, t), t.right, t.n, right)
  {
    hide InOrder, Plug, Before, Pos;
    Position(c, t);
    Side(InOrder(tree), key, k, |Before(c)| + |InOrder(t.left)|);
  }

  /** The depth of a node is less than the height of the tree. */
  lemma {:induction false} Deep(tree: T, i: nat, c: C, t: T, left: Vma?, right: Vma?)
    requires Avl(tree) && t.Node? && Walking(tree, i, c, t, left, right)
    ensures Depth(c) < H(tree)
  {
    UnplugAvl(c, t);
    HeightNat(t);
  }

  /** A search for key k: if it is in the tree it is in the subtree t. */
  ghost predicate Seeking(tree: T, key: map<Vma, nat>, k: nat, c: C, t: T) {
    var s, lo := InOrder(tree), |Before(c)|;
    && Plug(c, t) == tree && lo + |InOrder(t)| <= |s|
    && forall i :: 0 <= i < |s| && s[i] in key && key[s[i]] == k ==> lo <= i < lo + |InOrder(t)|
  }

  lemma {:induction false} NoStack()
    ensures StackOf(Top) == [] && var c: C := Top; Depth(c) == 0
  {}

  lemma {:induction false} SeekStart(tree: T, key: map<Vma, nat>, k: nat)
    ensures Seeking(tree, key, k, Top, tree)
  {}

  lemma {:induction false} SeekEnd(tree: T, key: map<Vma, nat>, k: nat, c: C)
    requires Seeking(tree, key, k, c, Leaf) && Increasing(InOrder(tree), key)
    ensures forall n :: n in InOrder(tree) ==> n in key && key[n] != k
  {}

  lemma {:induction false} SeekStep(tree: T, key: map<Vma, nat>, k: nat, c: C, t: T)
    requires Seeking(tree, key, k, c, t) && Increasing(InOrder(tree), key) && t.Node? && t.n in key && Avl(tree)
    ensures k < key[t.n] ==> Seeking(tree, key, k, ToLeft(c, t), t.left)
    ensures k > key[t.n] ==> Seeking(tree, key, k, ToRight(c, t), t.right)
    ensures Depth(c) < H(tree) && t.n in InOrder(tree) && Plug(c, t) == tree
  {
    hide InOrder, Plug, Before;
    Position(c, t);
    UnplugAvl(c, t);
    HeightNat(t);
    var s, j := InOrder(tree), |Before(c)| + |InOrder(t.left)|;
    assert s[j] == t.n;
  }

  ghost function OnlyChild(t: T): T
    requires t.Node?
  {
    if t.left.Leaf? then t.right else t.left
  }

  lemma {:induction false} TakenOut(m: Mem, m': Mem, root: Vma?, root': Vma?, c: C, t: T, t': T)
    requires Holds(m, root, c, t) && t.Node? && (!c.Top? ==> c.n in m)
    requires t'.Leaf? || (t' == OnlyChild(t) && (t.left.Leaf? || t.right.Leaf?))
    requires Except(m, m', Holder(PlaceOf(c))) && Stored(m, m', root, root', PlaceOf(c), Ptr(t'))
    ensures Holds(m', root', c, t')
  {
    Apart(c, t);
    Relink(m, m', c, t.n, root, Ptr(t'), root', Holder(PlaceOf(c)));
    Frame(m, m', t', Holder(PlaceOf(c)));
  }

  lemma {:induction false} PlaceTaken(m: Mem, m': Mem, root: Vma?, root': Vma?, c: C, t: T, n: Vma)
    requires Holds(m, root, c, t) && t.Node? && n !in Nodes(t) && n !in CtxNodes(c) && (!c.Top? ==> c.n in m) && t.n in m && n in m
    requires Except(m, m', {n} + Holder(PlaceOf(c))) && Stored(m, m', root, root', PlaceOf(c), n) && m'[n] == m[t.n]
    ensures Holds(m', root', c, Node(t.left, n, t.tag, t.right))
  {
    var w := {n} + Holder(PlaceOf(c));
    Apart(c, t);
    Relink(m, m', c, t.n, root, n, root', w);
    Frame(m, m', t.left, w);
    Frame(m, m', t.right, w);
  }

  /** The context of the left child of t. */
  ghost function PredBase(c: C, t: T): C
    requires t.Node?
  {
    InLeft(c, t.n, t.tag, t.right)
  }

  lemma {:induction false} StackLen(c: C)
    ensures |StackOf(c)| == Depth(c)
  {
    if !c.Top? { StackLen(c.up); }
  }

  /** The path down to the predecessor is shorter than the tree is high. */
  lemma {:induction false} DeepBelow(c: C, t: T, sp: C, s: T)
    requires t.Node? && s.Node? && Plug(sp, s) == t.left && Avl(Plug(c, t))
    ensures Depth(Append(sp, PredBase(c, t))) < H(Plug(c, t)) && Depth(c) + 1 < H(Plug(c, t))
  {
    PlugAppend(sp, PredBase(c, t), s);
    UnplugAvl(Append(sp, PredBase(c, t)), s);
    HeightNat(s);
    UnplugAvl(PredBase(c, t), t.left);
    HeightNat(t.left);
    PlugNodes(sp, s);
  }

  lemma {:induction false} StackBase(c: C, t: T)
    requires t.Node?
    ensures StackOf(PredBase(c, t)) == StackOf(c) + [PlaceOf(c)]
  {}

  lemma {:induction false} StackDrop(stack: array<Place>, count: nat, c: C)
    requires count < stack.Length && stack[..count + 1] == StackOf(c) + [PlaceOf(c)]
    ensures stack[..count] == StackOf(c)
  {
    assert stack[..count] == stack[..count + 1][..count];
  }

  lemma {:induction false} Separate(m: Mem, root: Vma?, c: C, t: T)
    requires Holds(m, root, c, t)
    ensures Distinct(Plug(c, t))
  {
    ToRoot(m, root, c, t);
  }

  lemma {:induction false} Found(c: C, t: T)
    requires t.Node?
    ensures t.n in InOrder(Plug(c, t))
  {
    Position(c, t);
  }

  /** The predecessor is not among what stays where it is. */
  lemma {:induction false} Fresh(m: Mem, root: Vma?, c: C, t: T, sp: C, s: T)
    requires t.Node? && s.Node? && Holds(m, root, Append(sp, PredBase(c, t)), s)
    ensures s.n !in Nodes(Node(Plug(sp, s.left), t.n, t.tag, t.right)) && s.n !in CtxNodes(c)
  {
    PlugNodes(sp, s.left);
    AppendNodes(sp, PredBase(c, t));
    assert s.n in Nodes(s);
  }

  /** The stack that holds the path to the predecessor, with the one place patched that was in the
      deleted node. */
  lemma {:induction false} Patched(st: seq<Place>, k: nat, c: C, t: T, sp: C, n: Vma)
    requires t.Node? && st == StackOf(Append(sp, PredBase(c, t))) && k == |StackOf(PredBase(c, t))|
    ensures k <= |st| && StackOf(Append(sp, InLeft(c, n, t.tag, t.right))) == if k < |st| then st[k := AtLeft(n)] else st
    ensures k == |st| <==> sp.Top?
    decreases sp
  {
    if !sp.Top? {
      Patched(StackOf(Append(sp.up, PredBase(c, t))), k, c, t, sp.up, n);
    }
  }

  /** The tree after the predecessor s has replaced the node of t. */
  lemma {:induction false} Replaced(c: C, t: T, sp: C, s: T)
    requires Avl(Plug(c, t)) && Distinct(Plug(c, t)) && t.Node? && s.Node? && s.right.Leaf? && Plug(sp, s) == t.left && After(sp) == []
    ensures var c' := Append(sp, InLeft(c, s.n, t.tag, t.right));
            && RebalanceInv(c', s.left, s.tag) && InOrder(Plug(c', s.left)) == Without(InOrder(Plug(c, t)), t.n)
  {
    PlugAppend(sp, PredBase(c, t), s);
    UnplugAvl(Append(sp, PredBase(c, t)), s);
    HeightNat(s.left);
    Renamed(c, t, sp, s.n, s.tag);
    OutOfOrder(c, t);
    PlugAppend(sp, InLeft(c, s.n, t.tag, t.right), s.left);
    PlugInOrder(c, Node(Plug(sp, s.left), s.n, t.tag, t.right));
    SpineOrderRight(sp, s);
  }

  lemma {:induction false} Renamed(c: C, t: T, sp: C, n: Vma, h: int)
    requires t.Node? && AvlCtx(Append(sp, PredBase(c, t)), h)
    ensures AvlCtx(Append(sp, InLeft(c, n, t.tag, t.right)), h)
  {
    if !sp.Top? { Renamed(c, t, sp.up, n, sp.tag); }
  }

  /** The tree after a node without a left child has been taken out. */
  lemma {:induction false} OneLess(c: C, t: T)
    requires Avl(Plug(c, t)) && Distinct(Plug(c, t)) && t.Node? && t.left.Leaf?
    ensures RebalanceInv(c, t.right, t.tag) && InOrder(Plug(c, t.right)) == Without(InOrder(Plug(c, t)), t.n)
  {
    UnplugAvl(c, t);
    HeightNat(t.right);
    OutOfOrder(c, t);
    PlugInOrder(c, t.right);
    assert InOrder(t.left) + InOrder(t.right) == InOrder(t.right);
  }

  lemma {:induction false} FitNatural(c: C, t: T, h: int)
    requires RebalanceInv(c, t, h)
    ensures Natural(t) && NaturalCtx(c)
  {
    AvlNatural(t);
    AvlCtxNatural(c, h);
  }

  lemma {:induction false} CutNatural(c: C, t: T, t': T)
    requires Avl(Plug(c, t)) && t.Node? && (t'.Leaf? || t' == t.right)
    ensures Natural(t') && NaturalCtx(c)
  {
    UnplugAvl(c, t);
    AvlNatural(t.right);
    AvlCtxNatural(c, H(t));
  }

  lemma {:induction false} AllCut(c: C)
    ensures var t: T := Leaf; InOrder(Plug(c, t)) == Before(c) + After(c)
  {
    var t: T := Leaf;
    PlugInOrder(c, t);
  }

  /** The key belongs to one area only. */
  lemma {:induction false} OneEnd(s: seq<Vma>, key: map<Vma, nat>, n: Vma, m: Vma)
    requires Increasing(s, key) && n in s
    ensures m in s && key[m] == key[n] ==> m == n
  {
  }

  lemma {:induction false} CutIncreasing(c: C, t: T, key: map<Vma, nat>)
    requires Increasing(InOrder(Plug(c, t)), key) && t.Node?
    ensures Increasing(Before(c) + After(c), key) && Before(c) + After(c) != InOrder(Plug(c, t))
  {
    PlugInOrder(c, t);
    var a, b, z, s := Before(c), InOrder(t), After(c), InOrder(Plug(c, t));
    assert |b| > 0;
    assert |a + z| < |s|;
    hide InOrder, Plug, Before, After;
    forall i | 0 <= i < |a + z| ensures (a + z)[i] == s[if i < |a| then i else i + |b|] {}
    forall n | n in a + z ensures n in key {
      var i :| 0 <= i < |a + z| && (a + z)[i] == n;
      assert s[if i < |a| then i else i + |b|] in s;
    }
  }

  /** An empty place of a balanced tree can take a leaf. */
  lemma {:induction false} LeafPlace(c: C, n: Vma)
    requires Avl(Plug(c, Leaf)) && n !in Nodes(Plug(c, Leaf))
    ensures var t := Node(Leaf, n, 1, Leaf); var s, i := InOrder(Plug(c, Leaf)), |Before(c)|;
            && RebalanceInv(c, t, 0) && n !in CtxNodes(c)
            && i <= |s| && InOrder(Plug(c, t)) == s[..i] + [n] + s[i..]
  {
    UnplugAvl(c, Leaf);
    PlugNodes(c, Leaf);
    PlugInOrder(c, Leaf);
    PlugInOrder(c, Node(Leaf, n, 1, Leaf));
  }

  /** Inserting at its position keeps the order; if the key is new, strictly. */
  lemma {:induction false} InsertSorted(s: seq<Vma>, key: map<Vma, nat>, n: Vma)
    requires Sorted(s, key) && n in key
    ensures var i := Pos(s, key, key[n]); Sorted(s[..i] + [n] + s[i..], key)
  {
    hide Pos;
    var i := Pos(s, key, key[n]);
    forall j | 0 <= j < |s| ensures j < i <==> key[s[j]] <= key[n] { Side(s, key, key[n], j); }
  }

  lemma {:induction false} InsertIncreasing(s: seq<Vma>, key: map<Vma, nat>, n: Vma)
    requires Sorted(s, key) && Increasing(s, key) && n in key && forall m :: m in s ==> key[m] != key[n]
    ensures var i := Pos(s, key, key[n]); Increasing(s[..i] + [n] + s[i..], key)
  {
    hide Pos, Sorted;
    var i := Pos(s, key, key[n]);
    forall j | 0 <= j < |s| ensures j < i <==> key[s[j]] <= key[n] { Side(s, key, key[n], j); }
  }

  ghost predicate NewKey(s: seq<Vma>, key: map<Vma, nat>, n: Vma) {
    n in key && forall m :: m in s ==> m in key && key[m] != key[n]
  }

  lemma {:induction false} InsertKeeps(s: seq<Vma>, key: map<Vma, nat>, n: Vma)
    requires Sorted(s, key) && n in key
    ensures var i := Pos(s, key, key[n]);
            && Sorted(s[..i] + [n] + s[i..], key)
            && (Increasing(s, key) && NewKey(s, key, n) ==> Increasing(s[..i] + [n] + s[i..], key))
  {
    InsertSorted(s, key, n);
    if Increasing(s, key) && NewKey(s, key, n) { InsertIncreasing(s, key, n); }
  }

  /** Taking an area out keeps the others in order. */
  lemma {:induction false} RemoveIncreasing(s: seq<Vma>, key: map<Vma, nat>, n: Vma)
    requires Increasing(s, key)
    ensures Increasing(Without(s, n), key) && forall x :: x in Without(s, n) ==> x in s
  {
    if s != [] && s[0] != n {
      var r := s[1..];
      RemoveIncreasing(r, key, n);
      assert forall x :: x in r ==> key[s[0]] < key[x];
    }
  }

  /** In strict order, as avl_checkorder demands. */
  ghost predicate Increasing(s: seq<Vma>, key: map<Vma, nat>) {
    && (forall n :: n in s ==> n in key)
    && forall i, j :: 0 <= i < j < |s| ==> key[s[i]] < key[s[j]]
  }

  /** The place now contains v. */
  ghost predicate Stored(m: Mem, m': Mem, root: Vma?, root': Vma?, place: Place, v: Vma?)
    requires place.AtRoot? || place.n in m
  {
    match place
    case AtRoot => root' == v
    case AtLeft(n) => root' == root && n in m' && m'[n] == m[n].(left := v)
    case AtRight(n) => root' == root && n in m' && m'[n] == m[n].(right := v)
  }

  ghost function Holder(place: Place): set<Vma?> { if place.AtRoot? then {} else {place.n} }

  /** The records around the focus are different ones. */
  lemma {:induction false} Names(m: Mem, root: Vma?, c: C, t: T)
    requires Holds(m, root, c, t) && t.Node?
    ensures Owner(c) != t.n
    ensures t.left.Node? ==> t.left.n !in {t.n, Owner(c)} && Ptr(t.left.right) !in {t.n, t.left.n} && Rep(m, t.left.right)
    ensures t.right.Node? ==> t.right.n !in {t.n, Owner(c)} && Ptr(t.right.left) !in {t.n, t.right.n} && Rep(m, t.right.left)
    ensures t.left.Node? && t.left.right.Node? ==> t.left.right.n != Owner(c) && t.left.right.n in m
    ensures t.right.Node? && t.right.left.Node? ==> t.right.left.n != Owner(c) && t.right.left.n in m
  {
    Apart(c, t);
    if t.left.Node? { Apart(InLeft(c, t.n, t.tag, t.right), t.left); }
    if t.right.Node? { Apart(InRight(c, t.left, t.n, t.tag), t.right); }
    assert Rep(m, t.left) && Rep(m, t.right);
  }

  /** The node of t, its subtrees and its surroundings are separate. */
  lemma {:induction false} Apart(c: C, t: T)
    requires Distinct(t) && DistinctCtx(c) && Nodes(t) !! CtxNodes(c) && t.Node?
    ensures t.n !in Nodes(t.left) && t.n !in Nodes(t.right) && Nodes(t.left) !! Nodes(t.right)
    ensures Owner(c) !in Nodes(t) && (forall n :: n in CtxNodes(c) ==> n !in Nodes(t)) && t.n in Nodes(t)
    ensures Distinct(t.left) && Distinct(t.right) && Nodes(t.left) <= Nodes(t) && Nodes(t.right) <= Nodes(t)
  {
    if !c.Top? { assert c.n in CtxNodes(c); }
  }
}
