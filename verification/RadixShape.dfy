/** Memory shape of the radix tree of lib/radix-tree.c: which finite map a set of linked nodes stands for.

    A node at position (h, p) holds the indices whose bits above the low 4 * h are p.  Every fact about the
    tree is local to one node: a slot is either empty, and then no bound index runs through it, or leads to
    the node or the item that belongs there. */
module RadixShape {
  import opened Words

  const MAP_SIZE := 16
  const MAX_HEIGHT := 8

  type Ptr = x: nat | 0 < x < M witness 1

  /** What a slot points to; the slots of the lowest level point to items, all others to nodes. */
  datatype Slot = Null | Child(node: Node) | Item(item: Ptr)

  /** The slots are part of the record, so they are a value field. */
  class Node {
    var count: nat
    var slots: seq<Slot>

    /** A cleared record. */
    constructor ()
      ensures count == 0 && slots == Cleared()
    {
      count := 0;
      slots := Cleared();
    }
  }

  function Cleared(): (r: seq<Slot>)
    ensures |r| == MAP_SIZE && forall k :: 0 <= k < MAP_SIZE ==> r[k] == Null
  {
    seq(MAP_SIZE, _ => Null)
  }

  datatype Cell = Cell(count: nat, slots: seq<Slot>)
  type Mem = map<Node, Cell>

  datatype Pos = Pos(h: nat, p: nat)
  type Places = map<Pos, Node>
  type Bindings = map<nat, Ptr>

  ghost function Snap(space: set<Node>): Mem
    reads space
  {
    map n | n in space :: Cell(n.count, n.slots)
  }

  /** An index without its low h digits. */
  function Prefix(i: nat, h: nat): nat {
    if h == 0 then i else Prefix(i, h - 1) / MAP_SIZE
  }

  function Pow16(h: nat): (r: nat)
    ensures r >= 1
  {
    if h == 0 then 1 else MAP_SIZE * Pow16(h - 1)
  }

  lemma {:induction false} ShrPrefix(x: nat, h: nat)
    ensures Shr(x, 4 * h) == Prefix(x, h)
  {
    if h > 0 {
      ShrPrefix(x, h - 1);
      assert Shr(x, 4 * h) == Shr(x, 4 * h - 1) / 2 == Shr(x, 4 * h - 2) / 2 / 2;
      assert Shr(x, 4 * h - 2) == Shr(x, 4 * h - 3) / 2 == Shr(x, 4 * h - 4) / 2 / 2;
    }
  }

  lemma {:induction false} PrefixLow(i: nat, h: nat)
    requires h > 0
    ensures Prefix(i, h) == Prefix(i / MAP_SIZE, h - 1)
  {
    if h > 1 { PrefixLow(i, h - 1); }
  }

  /** The indices that fit into a tree of height h. */
  lemma {:induction false} PrefixZero(i: nat, h: nat)
    ensures Prefix(i, h) == 0 <==> i < Pow16(h)
  {
    if h > 0 {
      PrefixLow(i, h);
      PrefixZero(i / MAP_SIZE, h - 1);
    }
  }

  /** The number of slots in use. */
  function Used(s: seq<Slot>): nat {
    if s == [] then 0 else Used(s[..|s| - 1]) + if s[|s| - 1].Null? then 0 else 1
  }

  lemma {:induction false} UsedNone(s: seq<Slot>)
    requires forall k :: 0 <= k < |s| ==> s[k] == Null
    ensures Used(s) == 0
  {
    if s != [] { UsedNone(s[..|s| - 1]); }
  }

  lemma {:induction false} UsedPut(s: seq<Slot>, k: nat, x: Slot)
    requires k < |s| && x != Null
    ensures Used(s[k := x]) == Used(s) + if s[k].Null? then 1 else 0
  {
    var r := s[..|s| - 1];
    if k < |r| {
      UsedPut(r, k, x);
      assert s[k := x][..|s| - 1] == r[k := x];
    } else {
      assert s[k := x][..|s| - 1] == r;
    }
  }

  /** Every node counts its used slots. */
  ghost predicate Counted(m: Mem) {
    forall n :: n in m ==> m[n].count == Used(m[n].slots)
  }

  /** The slot through which the indices of prefix p at level h are reached. */
  ghost predicate SlotOk(at: Places, b: Bindings, s: Slot, h: nat, p: nat) {
    match s
    case Null => Pos(h, p) !in at && forall i :: i in b ==> Prefix(i, h) != p
    case Item(v) => h == 0 && p in b && b[p] == v
    case Child(n) => h > 0 && Pos(h, p) in at && at[Pos(h, p)] == n
  }

  ghost predicate NodeOk(at: Places, b: Bindings, q: Pos, c: Cell) {
    && q.h > 0
    && |c.slots| == MAP_SIZE
    && forall k :: 0 <= k < MAP_SIZE ==> SlotOk(at, b, c.slots[k], q.h - 1, MAP_SIZE * q.p + k)
  }

  ghost function Parent(q: Pos): Pos {
    Pos(q.h + 1, q.p / MAP_SIZE)
  }

  /** Nodes stand at distinct positions, each below its parent. */
  ghost predicate Placed(at: Places, height: nat) {
    && (forall q, r :: q in at && r in at && at[q] == at[r] ==> q == r)
    && (forall q :: q in at ==> 0 < q.h <= height)
    && (forall q :: q in at && q.h == height ==> q.p == 0)
    && forall q {:trigger Parent(q)} :: q in at && q.h < height ==> Parent(q) in at
  }

  ghost predicate NodesOk(m: Mem, at: Places, b: Bindings) {
    forall q :: q in at ==> at[q] in m && NodeOk(at, b, q, m[at[q]])
  }

  /** Memory m, entered through rnode, holds the bindings b in a tree of the given height. */
  ghost predicate Ok(m: Mem, at: Places, b: Bindings, rnode: Slot, height: nat) {
    && height <= MAX_HEIGHT
    && Placed(at, height)
    && NodesOk(m, at, b)
    && SlotOk(at, b, rnode, height, 0)
    && forall i :: i in b ==> Prefix(i, height) == 0
  }

  /** The slot that belongs to level h on the way to index. */
  datatype Place = AtRoot | At(node: Node, k: nat)

  ghost predicate Leads(at: Places, height: nat, place: Place, index: nat, h: nat) {
    match place
    case AtRoot => h == height
    case At(n, k) => Pos(h + 1, Prefix(index, h + 1)) in at && at[Pos(h + 1, Prefix(index, h + 1))] == n && k == Prefix(index, h) % MAP_SIZE
  }

  ghost predicate Within(m: Mem, place: Place) {
    place.At? ==> place.node in m && place.k < |m[place.node].slots|
  }

  ghost function Held(m: Mem, rnode: Slot, place: Place): Slot
    requires Within(m, place)
  {
    match place
    case AtRoot => rnode
    case At(n, k) => m[n].slots[k]
  }

  /** The memory after a slot has been overwritten and the count of its node raised. */
  ghost function Filled(m: Mem, place: Place, s: Slot, more: nat): Mem
    requires Within(m, place)
  {
    match place
    case AtRoot => m
    case At(n, k) => m[n := Cell(m[n].count + more, m[n].slots[k := s])]
  }

  ghost function FilledRoot(rnode: Slot, place: Place, s: Slot): Slot {
    if place.AtRoot? then s else rnode
  }

  /** A place on the way to index exists and its slot is sound. */
  lemma {:induction false} HeldOk(m: Mem, at: Places, b: Bindings, rnode: Slot, height: nat, place: Place, index: nat, h: nat)
    requires Ok(m, at, b, rnode, height) && Prefix(index, height) == 0 && Leads(at, height, place, index, h)
    ensures place.At? ==> h < height && |m[place.node].slots| == MAP_SIZE
    ensures Within(m, place) && SlotOk(at, b, Held(m, rnode, place), h, Prefix(index, h))
  {
    hide Placed, SlotOk;
    if place.At? {
      var q := Pos(h + 1, Prefix(index, h + 1));
      Level(at, height, q);
      assert NodeOk(at, b, q, m[at[q]]);
      Digits(index, h);
    }
  }

  lemma {:induction false} Level(at: Places, height: nat, q: Pos)
    requires Placed(at, height) && q in at
    ensures 0 < q.h <= height
  {
  }

  lemma {:induction false} Digits(index: nat, h: nat)
    ensures MAP_SIZE * Prefix(index, h + 1) + Prefix(index, h) % MAP_SIZE == Prefix(index, h)
  {
  }

  /** The next place on the way down. */
  lemma {:induction false} Down(at: Places, b: Bindings, s: Slot, height: nat, index: nat, h: nat)
    requires h > 0 && s != Null && SlotOk(at, b, s, h, Prefix(index, h))
    ensures s.Child? && Leads(at, height, At(s.node, Prefix(index, h - 1) % MAP_SIZE), index, h - 1)
  {
  }

  /** A further position that no empty slot waits for leaves a node sound. */
  lemma {:induction false} OtherPlace(at: Places, b: Bindings, q: Pos, c: Cell, r: Pos, n: Node)
    requires NodeOk(at, b, q, c) && r !in at
    requires forall k :: 0 <= k < MAP_SIZE && c.slots[k] == Null ==> r != Pos(q.h - 1, MAP_SIZE * q.p + k)
    ensures NodeOk(at[r := n], b, q, c)
  {
    hide Prefix;
    forall k | 0 <= k < MAP_SIZE ensures SlotOk(at[r := n], b, c.slots[k], q.h - 1, MAP_SIZE * q.p + k) {
      assert SlotOk(at, b, c.slots[k], q.h - 1, MAP_SIZE * q.p + k);
    }
  }

  lemma {:induction false} GrownNode(at: Places, b: Bindings, rnode: Slot, height: nat, n: Node)
    requires Placed(at, height) && SlotOk(at, b, rnode, height, 0) && rnode != Null
    requires forall i :: i in b ==> Prefix(i, height) == 0
    ensures NodeOk(at[Pos(height + 1, 0) := n], b, Pos(height + 1, 0), Cell(1, Cleared()[0 := rnode]))
  {
    hide Prefix;
  }

  /** One more level above a non-empty tree. */
  lemma {:induction false} Grown(m: Mem, at: Places, b: Bindings, rnode: Slot, height: nat, n: Node)
    requires Ok(m, at, b, rnode, height) && rnode != Null && height < MAX_HEIGHT && n !in m
    ensures Ok(m[n := Cell(1, Cleared()[0 := rnode])], at[Pos(height + 1, 0) := n], b, Child(n), height + 1)
  {
    hide Placed, NodeOk, Prefix;
    GrownNode(at, b, rnode, height, n);
    GrownPlaces(m, at, b, height, n);
    GrownOthers(m, at, b, height, n);
    GrownPrefix(b, height);
  }

  lemma {:induction false} GrownOthers(m: Mem, at: Places, b: Bindings, height: nat, n: Node)
    requires Placed(at, height) && NodesOk(m, at, b)
    ensures forall q :: q in at ==> NodeOk(at[Pos(height + 1, 0) := n], b, q, m[at[q]])
  {
    var r := Pos(height + 1, 0);
    assert r !in at;
    hide NodeOk;
    forall q | q in at ensures NodeOk(at[r := n], b, q, m[at[q]]) {
      Below(at, b, q, m[at[q]], r, n);
    }
  }

  lemma {:induction false} GrownPrefix(b: Bindings, height: nat)
    requires forall i :: i in b ==> Prefix(i, height) == 0
    ensures forall i :: i in b ==> Prefix(i, height + 1) == 0
  {
    forall i | i in b ensures Prefix(i, height + 1) == 0 { assert Prefix(i, height) == 0; }
  }

  lemma {:induction false} Below(at: Places, b: Bindings, q: Pos, c: Cell, r: Pos, n: Node)
    requires NodeOk(at, b, q, c) && r !in at && q.h <= r.h
    ensures NodeOk(at[r := n], b, q, c)
  {
    OtherPlace(at, b, q, c, r, n);
  }

  lemma {:induction false} GrownPlaces(m: Mem, at: Places, b: Bindings, height: nat, n: Node)
    requires Placed(at, height) && NodesOk(m, at, b) && n !in m
    ensures Placed(at[Pos(height + 1, 0) := n], height + 1)
  {
    hide NodeOk;
  }

  /** A tree without a root node has no nodes. */
  lemma {:induction false} NoNodes(at: Places, height: nat, q: Pos)
    requires Placed(at, height) && Pos(height, 0) !in at
    ensures q !in at
    decreases height - q.h
  {
    if q in at && q.h < height { NoNodes(at, height, Parent(q)); }
  }

  /** An empty tree may be taken for a tree of any height. */
  lemma {:induction false} Raised(m: Mem, at: Places, b: Bindings, height: nat, height': nat)
    requires Ok(m, at, b, Null, height) && height' <= MAX_HEIGHT
    ensures b == map[] && at == map[] && Ok(m, at, b, Null, height')
  {
    assert forall i :: i in b ==> Prefix(i, height) == 0;
    forall q | q in at ensures false { NoNodes(at, height, q); }
  }

  /** The nodes above a node on the way to index are on it too. */
  lemma {:induction false} OnPath(at: Places, height: nat, index: nat, h: nat, g: nat)
    requires Placed(at, height) && Pos(h, Prefix(index, h)) in at && h <= g <= height
    ensures Pos(g, Prefix(index, g)) in at
  {
    if h < g {
      OnPath(at, height, index, h, g - 1);
      assert Parent(Pos(g - 1, Prefix(index, g - 1))) == Pos(g, Prefix(index, g));
    }
  }

  lemma {:induction false} AddPlace(at: Places, height: nat, r: Pos, n: Node)
    requires Placed(at, height) && forall q :: q in at ==> at[q] != n
    requires 0 < r.h <= height && (r.h == height ==> r.p == 0) && (r.h < height ==> Parent(r) in at)
    ensures Placed(at[r := n], height)
  {
  }

  lemma {:induction false} NoChild(at: Places, height: nat, r: Pos, k: nat)
    requires Placed(at, height) && r !in at && 0 < r.h <= height && k < MAP_SIZE
    ensures Pos(r.h - 1, MAP_SIZE * r.p + k) !in at
  {
    assert Parent(Pos(r.h - 1, MAP_SIZE * r.p + k)) == r;
  }

  lemma {:induction false} LinkedNode(at: Places, b: Bindings, height: nat, r: Pos, n: Node)
    requires Placed(at, height) && SlotOk(at, b, Null, r.h, r.p) && 0 < r.h <= height
    ensures NodeOk(at[r := n], b, r, Cell(0, Cleared()))
  {
    forall k | 0 <= k < MAP_SIZE ensures SlotOk(at[r := n], b, Cleared()[k], r.h - 1, MAP_SIZE * r.p + k) {
      NoChild(at, height, r, k);
      forall i | i in b ensures Prefix(i, r.h - 1) != MAP_SIZE * r.p + k { assert Prefix(i, r.h) != r.p; }
    }
  }

  lemma {:induction false} LinkedParent(at: Places, b: Bindings, q: Pos, c: Cell, k: nat, n: Node)
    requires NodeOk(at, b, q, c) && k < MAP_SIZE && c.slots[k] == Null && q.h > 1
    ensures NodeOk(at[Pos(q.h - 1, MAP_SIZE * q.p + k) := n], b, q, Cell(c.count + 1, c.slots[k := Child(n)]))
  {
    hide Prefix;
    var at' := at[Pos(q.h - 1, MAP_SIZE * q.p + k) := n];
    forall j | 0 <= j < MAP_SIZE && j != k ensures SlotOk(at', b, c.slots[j], q.h - 1, MAP_SIZE * q.p + j) {
      assert SlotOk(at, b, c.slots[j], q.h - 1, MAP_SIZE * q.p + j);
    }
  }

  lemma {:induction false} LinkedOthers(m: Mem, at: Places, b: Bindings, height: nat, place: Place, index: nat, h: nat, n: Node, q: Pos)
    requires Placed(at, height) && NodesOk(m, at, b) && Leads(at, height, place, index, h)
    requires Pos(h, Prefix(index, h)) !in at
    requires q in at && (place.At? ==> at[q] != place.node)
    ensures NodeOk(at[Pos(h, Prefix(index, h)) := n], b, q, m[at[q]])
  {
    var r, o := Pos(h, Prefix(index, h)), Pos(h + 1, Prefix(index, h + 1));
    hide SlotOk;
    assert NodeOk(at, b, q, m[at[q]]);
    Level(at, height, q);
    assert q != o;
    hide Placed, Prefix;
    forall k | 0 <= k < MAP_SIZE && m[at[q]].slots[k] == Null ensures r != Pos(q.h - 1, MAP_SIZE * q.p + k) {
      DigitOf(index, h, q.p, k);
    }
    OtherPlace(at, b, q, m[at[q]], r, n);
  }

  lemma {:induction false} DigitOf(index: nat, h: nat, p: nat, k: nat)
    requires k < MAP_SIZE
    ensures MAP_SIZE * p + k == Prefix(index, h) ==> p == Prefix(index, h + 1)
  {
  }

  /** A cleared node linked into an empty slot. */
  lemma {:induction false} Linked(m: Mem, at: Places, b: Bindings, rnode: Slot, height: nat, place: Place, index: nat, h: nat, n: Node)
    requires Ok(m, at, b, rnode, height) && Prefix(index, height) == 0 && Leads(at, height, place, index, h) && h > 0
    requires n !in m && Within(m, place) && Held(m, rnode, place) == Null
    ensures Ok(Filled(m, place, Child(n), 1)[n := Cell(0, Cleared())], at[Pos(h, Prefix(index, h)) := n], b,
               FilledRoot(rnode, place, Child(n)), height)
    ensures h < height ==> rnode != Null
  {
    hide Placed, SlotOk, NodeOk, Prefix;
    var r := Pos(h, Prefix(index, h));
    var m', at' := Filled(m, place, Child(n), 1)[n := Cell(0, Cleared())], at[r := n];
    HeldOk(m, at, b, rnode, height, place, index, h);
    EmptySlot(at, b, h, r.p);
    Digits(index, h);
    AddPlace(at, height, r, n);
    LinkedNode(at, b, height, r, n);
    forall q | q in at ensures at[q] in m && NodeOk(at', b, q, m'[at[q]]) {
      if place.At? && at[q] == place.node {
        var o := Pos(h + 1, Prefix(index, h + 1));
        SamePos(at, height, q, o);
        Digits(index, h);
        LinkedParent(at, b, o, m[place.node], place.k, n);
      } else {
        LinkedOthers(m, at, b, height, place, index, h, n, q);
      }
    }
    LinkedRoot(at, b, rnode, height, place, index, h, n);
  }

  lemma {:induction false} EmptySlot(at: Places, b: Bindings, h: nat, p: nat)
    requires SlotOk(at, b, Null, h, p)
    ensures Pos(h, p) !in at
  {
  }

  lemma {:induction false} SamePos(at: Places, height: nat, q: Pos, r: Pos)
    requires Placed(at, height) && q in at && r in at && at[q] == at[r]
    ensures q == r
  {
  }

  lemma {:induction false} LinkedRoot(at: Places, b: Bindings, rnode: Slot, height: nat, place: Place, index: nat, h: nat, n: Node)
    requires Placed(at, height) && SlotOk(at, b, rnode, height, 0) && Leads(at, height, place, index, h)
    requires Prefix(index, height) == 0 && 0 < h && (place.At? ==> h < height)
    ensures SlotOk(at[Pos(h, Prefix(index, h)) := n], b, FilledRoot(rnode, place, Child(n)), height, 0)
    ensures h < height ==> rnode != Null
  {
    if place.At? {
      RootThere(at, b, rnode, height, index, h + 1);
      hide Placed, Prefix;
    }
  }

  /** A slot that index does not run through stays sound when index gets a value. */
  lemma {:induction false} SlotBound(at: Places, b: Bindings, s: Slot, g: nat, p: nat, index: nat, v: Ptr)
    requires SlotOk(at, b, s, g, p) && (g == 0 ==> p != index)
    requires s == Null ==> Prefix(index, g) != p
    ensures SlotOk(at, b[index := v], s, g, p)
  {
  }

  lemma {:induction false} BoundLeaf(at: Places, b: Bindings, q: Pos, c: Cell, k: nat, index: nat, v: Ptr, more: nat)
    requires NodeOk(at, b, q, c) && q.h == 1 && k < MAP_SIZE && index == MAP_SIZE * q.p + k
    ensures NodeOk(at, b[index := v], q, Cell(more, c.slots[k := Item(v)]))
  {
    forall j | 0 <= j < MAP_SIZE && j != k ensures SlotOk(at, b[index := v], c.slots[j], 0, MAP_SIZE * q.p + j) {
      assert SlotOk(at, b, c.slots[j], q.h - 1, MAP_SIZE * q.p + j);
      SlotBound(at, b, c.slots[j], 0, MAP_SIZE * q.p + j, index, v);
    }
  }

  lemma {:induction false} BoundOther(at: Places, b: Bindings, height: nat, q: Pos, c: Cell, index: nat, v: Ptr)
    requires Placed(at, height) && q in at && NodeOk(at, b, q, c)
    requires Pos(1, Prefix(index, 1)) in at && q != Pos(1, Prefix(index, 1))
    ensures NodeOk(at, b[index := v], q, c)
  {
    hide SlotOk, Prefix;
    Level(at, height, q);
    if q.h > 1 { OnPath(at, height, index, 1, q.h - 1); }
    hide Placed;
    forall k | 0 <= k < MAP_SIZE ensures SlotOk(at, b[index := v], c.slots[k], q.h - 1, MAP_SIZE * q.p + k) {
      OffPath(at, b, c.slots[k], q, k, index, v);
    }
  }

  lemma {:induction false} OffPath(at: Places, b: Bindings, s: Slot, q: Pos, k: nat, index: nat, v: Ptr)
    requires q.h > 0 && k < MAP_SIZE && SlotOk(at, b, s, q.h - 1, MAP_SIZE * q.p + k)
    requires q.h > 1 ==> Pos(q.h - 1, Prefix(index, q.h - 1)) in at
    requires q.h == 1 ==> q.p != Prefix(index, 1)
    ensures SlotOk(at, b[index := v], s, q.h - 1, MAP_SIZE * q.p + k)
  {
    DigitOf(index, 0, q.p, k);
    PrefixNone(index);
    hide Prefix;
    SlotBound(at, b, s, q.h - 1, MAP_SIZE * q.p + k, index, v);
  }

  lemma {:induction false} PrefixNone(index: nat)
    ensures Prefix(index, 0) == index
  {
  }

  /** An item written into the slot of its index. */
  lemma {:induction false} Bound(m: Mem, at: Places, b: Bindings, rnode: Slot, height: nat, place: Place, index: nat, v: Ptr, more: nat)
    requires Ok(m, at, b, rnode, height) && Prefix(index, height) == 0 && Leads(at, height, place, index, 0)
    requires Within(m, place)
    ensures Ok(Filled(m, place, Item(v), more), at, b[index := v], FilledRoot(rnode, place, Item(v)), height)
  {
    if place.At? {
      BoundNodes(m, at, b, rnode, height, place, index, v, more);
      hide Placed, NodeOk, Prefix;
    } else {
      assert forall q :: q in at ==> q.h <= 0;
      hide Placed, NodeOk;
    }
  }

  lemma {:induction false} RootThere(at: Places, b: Bindings, rnode: Slot, height: nat, index: nat, h: nat)
    requires Placed(at, height) && SlotOk(at, b, rnode, height, 0)
    requires Prefix(index, height) == 0 && Pos(h, Prefix(index, h)) in at
    ensures 0 < h <= height && rnode != Null
  {
    hide Prefix;
    Level(at, height, Pos(h, Prefix(index, h)));
    OnPath(at, height, index, h, height);
  }

  lemma {:induction false} BoundNodes(m: Mem, at: Places, b: Bindings, rnode: Slot, height: nat, place: Place, index: nat, v: Ptr, more: nat)
    requires Ok(m, at, b, rnode, height) && Prefix(index, height) == 0 && Leads(at, height, place, index, 0) && place.At?
    requires Within(m, place)
    ensures NodesOk(Filled(m, place, Item(v), more), at, b[index := v])
    ensures 0 < height && rnode != Null
  {
    hide Placed, SlotOk, NodeOk, Prefix;
    var m', o := Filled(m, place, Item(v), more), Pos(1, Prefix(index, 1));
    HeldOk(m, at, b, rnode, height, place, index, 0);
    Digits(index, 0);
    PrefixNone(index);
    RootThere(at, b, rnode, height, index, 1);
    forall q | q in at ensures at[q] in m && NodeOk(at, b[index := v], q, m'[at[q]]) {
      if at[q] == place.node {
        SamePos(at, height, q, o);
        BoundLeaf(at, b, q, m[place.node], place.k, index, v, m[place.node].count + more);
      } else {
        BoundOther(at, b, height, q, m[at[q]], index, v);
      }
    }
  }

  /** Clearing the slot of a bound index unbinds that index and no other. */
  lemma {:induction false} Unbound(m: Mem, at: Places, b: Bindings, rnode: Slot, height: nat, place: Place, index: nat)
    requires Ok(m, at, b, rnode, height) && Prefix(index, height) == 0 && Leads(at, height, place, index, 0) && Within(m, place)
    ensures Ok(Filled(m, place, Null, 0), at, b - {index}, FilledRoot(rnode, place, Null), height)
  {
    var b' := b - {index};
    if place.At? {
      UnboundNodes(m, at, b, rnode, height, place, index);
      hide Placed, NodeOk, Prefix;
    } else {
      assert forall q :: q in at ==> q.h <= 0;
      assert forall i :: i in b' ==> Prefix(i, 0) == 0 && i != index;
      hide Placed, NodeOk;
    }
  }

  lemma {:induction false} UnboundNodes(m: Mem, at: Places, b: Bindings, rnode: Slot, height: nat, place: Place, index: nat)
    requires Ok(m, at, b, rnode, height) && Prefix(index, height) == 0 && Leads(at, height, place, index, 0) && place.At?
    requires Within(m, place)
    ensures NodesOk(Filled(m, place, Null, 0), at, b - {index})
    ensures 0 < height && rnode != Null
  {
    hide Placed, SlotOk, NodeOk, Prefix;
    var m', o := Filled(m, place, Null, 0), Pos(1, Prefix(index, 1));
    HeldOk(m, at, b, rnode, height, place, index, 0);
    Digits(index, 0);
    PrefixNone(index);
    RootThere(at, b, rnode, height, index, 1);
    forall q | q in at ensures at[q] in m && NodeOk(at, b - {index}, q, m'[at[q]]) {
      Level(at, height, q);
      if at[q] == place.node {
        SamePos(at, height, q, o);
        UnboundLeaf(at, height, b, q, m[place.node], place.k, index);
      } else {
        UnboundOther(at, b, q, m[at[q]], index);
      }
    }
  }

  lemma {:induction false} UnboundLeaf(at: Places, height: nat, b: Bindings, q: Pos, c: Cell, k: nat, index: nat)
    requires Placed(at, height) && NodeOk(at, b, q, c) && q.h == 1 && k < MAP_SIZE && index == MAP_SIZE * q.p + k
    ensures NodeOk(at, b - {index}, q, Cell(c.count, c.slots[k := Null]))
  {
    assert Pos(0, index) !in at;
    hide Placed;
    forall j | 0 <= j < MAP_SIZE && j != k ensures SlotOk(at, b - {index}, c.slots[j], 0, MAP_SIZE * q.p + j) {
      assert SlotOk(at, b, c.slots[j], q.h - 1, MAP_SIZE * q.p + j);
    }
    forall i | i in b - {index} ensures Prefix(i, 0) != index { PrefixNone(i); }
  }

  lemma {:induction false} UnboundOther(at: Places, b: Bindings, q: Pos, c: Cell, index: nat)
    requires NodeOk(at, b, q, c) && q != Pos(1, Prefix(index, 1))
    ensures NodeOk(at, b - {index}, q, c)
  {
    hide Prefix;
    forall k | 0 <= k < MAP_SIZE ensures SlotOk(at, b - {index}, c.slots[k], q.h - 1, MAP_SIZE * q.p + k) {
      assert SlotOk(at, b, c.slots[k], q.h - 1, MAP_SIZE * q.p + k);
      DigitOf(index, 0, q.p, k);
      PrefixNone(index);
    }
  }

  lemma {:induction false} UsedClear(s: seq<Slot>, k: nat)
    requires k < |s| && s[k] != Null
    ensures Used(s[k := Null]) == Used(s) - 1
  {
    UsedPut(s[k := Null], k, s[k]);
    assert s[k := Null][k := s[k]] == s;
  }

  lemma {:induction false} CountedNew(m: Mem, n: Node)
    requires Counted(m)
    ensures Counted(m[n := Cell(0, Cleared())])
  {
    UsedNone(Cleared());
  }

  lemma {:induction false} CountedLinked(m: Mem, rnode: Slot, place: Place, n: Node)
    requires Within(m, place) && Held(m, rnode, place) == Null
    ensures Counted(m) ==> Counted(Filled(m, place, Child(n), 1)[n := Cell(0, Cleared())])
  {
    hide Counted;
    if Counted(m) {
      CountedFill(m, rnode, place, Child(n));
      CountedNew(Filled(m, place, Child(n), 1), n);
    }
  }

  lemma {:induction false} CountedGrown(m: Mem, n: Node, s: Slot)
    requires Counted(m) && s != Null
    ensures Counted(m[n := Cell(1, Cleared()[0 := s])])
  {
    UsedNone(Cleared());
    UsedPut(Cleared(), 0, s);
  }

  /** Filling an empty slot has to be counted, refilling a used one not; emptying one leaves the count wrong. */
  lemma {:induction false} CountedFill(m: Mem, rnode: Slot, place: Place, s: Slot)
    requires Counted(m) && Within(m, place)
    ensures s != Null ==> Counted(Filled(m, place, s, if Held(m, rnode, place) == Null then 1 else 0))
    ensures s == Null && Held(m, rnode, place) != Null ==> (Counted(Filled(m, place, s, 0)) <==> place.AtRoot?)
  {
    if place.At? {
      var t := m[place.node].slots;
      if s != Null { UsedPut(t, place.k, s); }
      if t[place.k] != Null { UsedClear(t, place.k); }
      hide Used;
      assert place.node in Filled(m, place, s, 0);
    }
  }
}
