/** The radix tree of lib/radix-tree.c as a finite map from 32-bit indices to items. */
module RadixTree {
  import opened Words
  import opened RadixShape

  const MAP_SHIFT := 4
  const INDEX_BITS := 32
  const RESERVED: Ptr := 0xFFFF_FFFF
  const NO_MEMORY := -2
  const PRESENT := -3

  /** radix_tree_maxindex: the largest key of a tree of the given height. */
  function MaxIndex(height: nat): u32 {
    var tmp := height * MAP_SHIFT;
    if tmp >= INDEX_BITS then 0xFFFF_FFFF else (((0xFFFF_FFFF as bv32) >> (INDEX_BITS - tmp - 1)) >> 1) as u32
  }

  lemma {:induction false} MaxIndexIs(height: nat)
    ensures MaxIndex(height) + 1 == Pow16(if height < MAX_HEIGHT then height else MAX_HEIGHT)
  {
    assert Pow16(0) == 1 && Pow16(1) == 0x10 && Pow16(2) == 0x100;
    assert Pow16(3) == 0x1000 && Pow16(4) == 0x1_0000;
    assert Pow16(5) == 0x10_0000 && Pow16(6) == 0x100_0000;
    assert Pow16(7) == 0x1000_0000 && Pow16(8) == 0x1_0000_0000;
    match height {
      case 0 => case 1 => case 2 => case 3 => case 4 => case 5 => case 6 => case 7 =>
      case _ =>
    }
  }

  /** An index fits exactly when no digit is left above the root. */
  lemma {:induction false} Fits(index: u32, height: nat)
    requires height <= MAX_HEIGHT
    ensures index <= MaxIndex(height) <==> Prefix(index, height) == 0
  {
    MaxIndexIs(height);
    PrefixZero(index, height);
  }

  /** The least height, from the given one on, that has room for index. */
  ghost function LeastHeight(index: u32, height: nat): (h: nat)
    ensures h >= height && forall g :: height <= g < h ==> index > MaxIndex(g)
    ensures height <= MAX_HEIGHT ==> h <= MAX_HEIGHT && index <= MaxIndex(h)
    decreases MAX_HEIGHT - height
  {
    if height < MAX_HEIGHT && index > MaxIndex(height) then LeastHeight(index, height + 1)
    else MaxIndexIs(MAX_HEIGHT); Whole(); height
  }

  /** The nodes that are missing on the way from level h down to index. */
  ghost function Gaps(at: Places, index: u32, h: nat): (n: nat)
    ensures n <= h
  {
    if h == 0 then 0 else Gaps(at, index, h - 1) + if Pos(h, Prefix(index, h)) in at then 0 else 1
  }

  /** The nodes that an absent index takes: the levels to add above a root that is not empty, and those missing on the way
      down, which are all but the new root if the tree has to grow, and all if it is empty. */
  ghost function Needed(at: Places, rnode: Slot, height: nat, index: u32): nat {
    var h := LeastHeight(index, height);
    if h == height then Gaps(at, index, h) else if rnode == Null then h else (h - height) + (h - 1)
  }

  /** The height at which an insertion that runs out of nodes leaves the tree. */
  ghost function Reached(rnode: Slot, height: nat, supply: nat, index: u32): nat {
    var h := LeastHeight(index, height);
    if rnode != Null && supply < h - height then height + supply else h
  }

  lemma {:induction false} AtMost(at: Places, rnode: Slot, height: nat, index: u32)
    requires height <= MAX_HEIGHT
    ensures Needed(at, rnode, height, index) <= MOST_NODES
  {
  }

  /** The most nodes one insertion can ask for: eight levels on top and seven below the new root. */
  const MOST_NODES := 15

  class Root {
    var height: nat
    var rnode: Slot
    var supply: nat // the nodes that the cache can still hand out
    ghost var space: set<Node>
    ghost var at: Places
    ghost var bindings: Bindings

    ghost predicate Valid()
      reads this, space
    {
      Ok(Snap(space), at, bindings, rnode, height)
    }

    /** Every node counts its used slots. */
    ghost predicate Counts()
      reads this`space, space
    {
      Counted(Snap(space))
    }

    /** RADIX_TREE_INIT. */
    constructor (nodes: nat)
      ensures Valid() && Counts() && bindings == map[] && supply == nodes && space == {}
    {
      height, rnode, supply := 0, Null, nodes;
      space, at, bindings := {}, map[], map[];
    }

    /** radix_tree_node_alloc. */
    method Alloc() returns (n: Node?)
      modifies this`supply
      ensures n == null <==> old(supply) == 0
      ensures n == null ==> supply == 0
      ensures n != null ==> fresh(n) && n.count == 0 && n.slots == Cleared() && supply == old(supply) - 1
    {
      if supply == 0 {
        n := null;
      } else {
        supply := supply - 1;
        n := new Node();
      }
    }

    /** One round of the growing loop. */
    method Grow(n: Node)
      requires Valid() && rnode != Null && height < MAX_HEIGHT
      requires n !in space && n.count == 0 && n.slots == Cleared()
      modifies this`height, this`rnode, this`space, this`at, n
      ensures Valid() && space == old(space) + {n} && rnode == Child(n) && height == old(height) + 1
      ensures at == old(at)[Pos(height, 0) := n]
      ensures old(Counts()) ==> Counts()
    {
      hide Ok, Counted;
      ghost var m := Snap(space);
      Grown(m, at, bindings, rnode, height, n);
      if Counted(m) { CountedGrown(m, n, rnode); }
      n.slots := n.slots[0 := rnode];
      if rnode != Null { n.count := 1; }
      rnode, height := Child(n), height + 1;
      space, at := space + {n}, at[Pos(height, 0) := n];
      assert Snap(space) == m[n := Cell(1, Cleared()[0 := old(rnode)])];
    }

    /** radix_tree_extend: makes just enough room for index and keeps every binding, also when the nodes run out. */
    method Extend(index: u32) returns (error: int)
      requires Valid() && index > MaxIndex(height)
      modifies this`height, this`rnode, this`space, this`at, this`supply
      ensures Valid() && old(space) <= space && fresh(space - old(space)) && (old(Counts()) ==> Counts())
      ensures error == 0 || error == NO_MEMORY
      ensures error == 0 ==> index <= MaxIndex(height) && forall h :: old(height) <= h < height ==> index > MaxIndex(h)
      ensures error == NO_MEMORY <==> rnode != Null && old(supply) < LeastHeight(index, old(height)) - old(height)
      ensures error == NO_MEMORY ==> supply == 0
      ensures error == 0 ==> height == LeastHeight(index, old(height))
      ensures rnode == Null <==> old(rnode) == Null
      ensures old(supply) - supply == (if rnode == Null then 0 else height - old(height))
      ensures if rnode == Null then at == old(at) == map[] else Topped(old(at), at, old(height), height)
    {
      hide SlotOk, Placed, NodesOk, MaxIndex, Counted, Topped, LeastHeight;
      Fits(index, height);
      assert index <= MaxIndex(MAX_HEIGHT) by { MaxIndexIs(MAX_HEIGHT); Whole(); }
      var h := height + 1;
      while index > MaxIndex(h)
        invariant height < h <= MAX_HEIGHT && forall g :: height <= g < h ==> index > MaxIndex(g)
        modifies {}
        decreases MAX_HEIGHT - h
      {
        h := h + 1;
      }
      Least(index, height, h);
      if rnode != Null {
        SameTop(at, height);
        while h > height // entered at least once: h > height holds here
          invariant Valid() && rnode != Null && old(height) <= height <= h <= MAX_HEIGHT
          invariant old(space) <= space && fresh(space - old(space)) && (old(Counts()) ==> Counts()) && bindings == old(bindings)
          invariant old(supply) - supply == height - old(height) && Topped(old(at), at, old(height), height)
        {
          var node := Alloc();
          if node == null { return NO_MEMORY; }
          MoreTop(old(at), at, old(height), height, node);
          Grow(node);
        }
      } else {
        Raised(Snap(space), at, bindings, height, h);
        height := h;
      }
      error := 0;
    }

    /** The slot a place stands for. */
    function Get(slot: Place): Slot
      requires slot.At? ==> slot.k < |slot.node.slots|
      reads this, if slot.At? then {slot.node} else {}
    {
      match slot
      case AtRoot => rnode
      case At(n, k) => n.slots[k]
    }

    method Put(slot: Place, s: Slot)
      requires slot.At? ==> slot.k < |slot.node.slots| && slot.node in space
      modifies this`rnode, if slot.At? then {slot.node} else {}
      ensures Within(old(Snap(space)), slot) && Snap(space) == Filled(old(Snap(space)), slot, s, 0)
      ensures rnode == FilledRoot(old(rnode), slot, s)
    {
      match slot
      case AtRoot => rnode := s;
      case At(n, k) => n.slots := n.slots[k := s];
    }

    method Count(slot: Place)
      requires slot.At? ==> slot.node in space
      modifies if slot.At? then {slot.node} else {}
      ensures slot.At? ==> Snap(space) == old(Snap(space)[slot.node := Cell(slot.node.count + 1, slot.node.slots)])
      ensures slot.AtRoot? ==> Snap(space) == old(Snap(space))
    {
      match slot
      case AtRoot =>
      case At(n, k) => n.count := n.count + 1;
    }

    /** Fills an empty slot and counts it. */
    method Fill(slot: Place, s: Slot)
      requires slot.At? ==> slot.k < |slot.node.slots| && slot.node in space
      modifies this`rnode, if slot.At? then {slot.node} else {}
      ensures Within(old(Snap(space)), slot) && Snap(space) == Filled(old(Snap(space)), slot, s, 1)
      ensures rnode == FilledRoot(old(rnode), slot, s)
    {
      hide Counted;
      Put(slot, s);
      Count(slot);
    }

    /** A cleared node takes the empty slot of level h on the way to index. */
    method Link(slot: Place, tmp: Node, ghost index: u32, ghost h: nat)
      requires Valid() && Prefix(index, height) == 0 && h > 0 && Leads(at, height, slot, index, h)
      requires slot.At? ==> slot.node in space && slot.k < |slot.node.slots|
      requires Get(slot) == Null
      requires tmp !in space && tmp.count == 0 && tmp.slots == Cleared()
      modifies this`rnode, this`space, this`at, if slot.At? then {slot.node} else {}
      ensures Valid() && space == old(space) + {tmp} && Leads(at, height, slot, index, h)
      ensures at == old(at)[Pos(h, Prefix(index, h)) := tmp]
      ensures slot.At? ==> slot.k < |slot.node.slots|
      ensures Get(slot) == Child(tmp)
      ensures h < height ==> old(rnode) != Null
      ensures old(Counts()) ==> Counts()
    {
      hide Ok, Counted;
      ghost var m := Snap(space);
      Linked(m, at, bindings, rnode, height, slot, index, h, tmp);
      CountedLinked(m, rnode, slot, tmp);
      Fill(slot, Child(tmp));
      ghost var m' := Snap(space);
      space, at := space + {tmp}, at[Pos(h, Prefix(index, h)) := tmp];
      assert Snap(space) == m'[tmp := Cell(0, Cleared())];
    }

    /** The walk of radix_tree_reserve from the root to the slot of index, adding the nodes that are missing. */
    method Descend(index: u32) returns (error: int, slot: Place)
      requires Valid() && Prefix(index, height) == 0
      modifies this`rnode, this`space, this`at, this`supply, space
      ensures Valid() && old(space) <= space && fresh(space - old(space)) && (old(Counts()) ==> Counts())
      ensures index in bindings ==> error == 0 && unchanged(this, old(space))
      ensures error == 0 || error == NO_MEMORY
      ensures error == 0 ==> Leads(at, height, slot, index, 0) && supply == old(supply) - Gaps(old(at), index, height)
      ensures error == NO_MEMORY <==> old(supply) < Gaps(old(at), index, height)
      ensures error == NO_MEMORY ==> supply == 0
    {
      hide Ok, Leads, SlotOk, Prefix, Shr, Counted, Gaps, SameBelow;
      slot := AtRoot;
      var h := height;
      var shift := (h - 1) * MAP_SHIFT;
      assert Leads(at, height, slot, index, h) by { Start(at, height, index); }
      SameStart(at, index, h);
      while h > 0
        invariant 0 <= h <= height && shift == (h - 1) * MAP_SHIFT
        invariant Valid() && Leads(at, height, slot, index, h)
        invariant old(space) <= space && fresh(space - old(space)) && (old(Counts()) ==> Counts())
        invariant index in bindings ==> unchanged(this, old(space))
        invariant old(supply) - supply == Gaps(old(at), index, height) - Gaps(old(at), index, h)
        invariant SameBelow(old(at), at, index, h)
      {
        GapStep(old(at), at, index, h);
        ghost var was := at;
        var ok := Provide(slot, index, h);
        if !ok { return NO_MEMORY, slot; }
        Lower(old(at), was, at, index, h);
        ShrPrefix(index, h - 1);
        slot := At(Get(slot).node, Shr(index, shift) % MAP_SIZE);
        shift, h := shift - MAP_SHIFT, h - 1;
      }
      NoGaps(old(at), index);
      error := 0;
    }

    /** Makes the slot of level h on the way to index lead to a node. */
    method Provide(slot: Place, ghost index: u32, ghost h: nat) returns (ok: bool)
      requires Valid() && Prefix(index, height) == 0 && h > 0 && Leads(at, height, slot, index, h)
      modifies this`rnode, this`space, this`at, this`supply, space
      ensures Valid() && old(space) <= space && fresh(space - old(space)) && (old(Counts()) ==> Counts())
      ensures index in bindings ==> ok && unchanged(this, old(space))
      ensures !ok <==> Pos(h, Prefix(index, h)) !in old(at) && old(supply) == 0
      ensures !ok ==> unchanged(this, old(space))
      ensures ok ==> supply == old(supply) - if Pos(h, Prefix(index, h)) in old(at) then 0 else 1
      ensures at == old(at) || (Pos(h, Prefix(index, h)) in at && at == old(at)[Pos(h, Prefix(index, h)) := at[Pos(h, Prefix(index, h))]])
      ensures ok ==> (slot.At? ==> slot.k < |slot.node.slots|) && Get(slot).Child?
      ensures ok ==> Leads(at, height, At(Get(slot).node, Prefix(index, h - 1) % MAP_SIZE), index, h - 1)
    {
      hide Ok, Leads, SlotOk, Prefix, Counted;
      HeldOk(Snap(space), at, bindings, rnode, height, slot, index, h);
      Present(at, bindings, Get(slot), h, Prefix(index, h));
      if Get(slot) == Null {
        Missing(at, bindings, index, h);
        var tmp := Alloc();
        if tmp == null { return false; }
        Link(slot, tmp, index, h);
        HeldOk(Snap(space), at, bindings, rnode, height, slot, index, h);
      }
      Down(at, bindings, Get(slot), height, index, h);
      ok := true;
    }

    /** radix_tree_reserve: a free slot for index, marked as reserved. */
    method Reserve(index: u32) returns (error: int, pslot: Place)
      requires Valid()
      modifies this, space
      ensures Valid() && old(space) <= space && fresh(space - old(space)) && (old(Counts()) ==> Counts())
      ensures index in old(bindings) ==> error == PRESENT && unchanged(this, old(space))
      ensures index !in old(bindings) ==> error == 0 || error == NO_MEMORY
      ensures error == NO_MEMORY ==> bindings == old(bindings) && supply == 0 && old(supply) < MOST_NODES
      ensures index !in old(bindings) ==> (error == NO_MEMORY <==> old(supply) < Needed(old(at), old(rnode), old(height), index))
      ensures error == 0 ==> height == LeastHeight(index, old(height)) && supply == old(supply) - Needed(old(at), old(rnode), old(height), index)
      ensures error == NO_MEMORY ==> height == Reached(old(rnode), old(height), old(supply), index)
      ensures error == 0 ==> bindings == old(bindings)[index := RESERVED]
      ensures error == 0 ==> Prefix(index, height) == 0 && Leads(at, height, pslot, index, 0)
    {
      hide Ok, Leads, SlotOk, MaxIndex, Prefix, Counted, Gaps, LeastHeight, Topped;
      pslot := AtRoot;
      Bounded(Snap(space), at, bindings, rnode, height, index);
      AtMost(at, rnode, height, index);
      Fits(index, height);
      if index > MaxIndex(height) {
        Places0(Snap(space), at, bindings, rnode, height);
        error := Extend(index);
        if error != 0 { return; }
        Bounded(Snap(space), at, bindings, rnode, height, index);
        Fits(index, height);
        if rnode == Null { AllGaps(index, height); } else { TopGaps(old(at), at, index, old(height), height); }
      } else {
        Least(index, height, height);
      }
      error, pslot := Descend(index);
      if error != 0 { return; }
      HeldOk(Snap(space), at, bindings, rnode, height, pslot, index, 0);
      Leaf(at, bindings, Get(pslot), index);
      if Get(pslot) != Null { return PRESENT, pslot; }
      Bind(pslot, RESERVED, index);
    }

    /** Counts and marks the slot found for index. */
    method Bind(slot: Place, v: Ptr, ghost index: u32)
      requires Valid() && Prefix(index, height) == 0 && Leads(at, height, slot, index, 0)
      requires slot.At? ==> slot.node in space && slot.k < |slot.node.slots|
      requires Get(slot) == Null
      modifies this`rnode, this`bindings, if slot.At? then {slot.node} else {}
      ensures Valid() && bindings == old(bindings)[index := v]
      ensures old(Counts()) ==> Counts()
    {
      hide Ok, Leads, Counted;
      ghost var m := Snap(space);
      Bound(m, at, bindings, rnode, height, slot, index, v, 1);
      if Counted(m) { CountedFill(m, rnode, slot, Item(v)); }
      Fill(slot, Item(v));
      bindings := bindings[index := v];
    }

    /** radix_tree_insert: one new binding, or none. A null item binds nothing, but is counted in its node. */
    method Insert(index: u32, item: u32) returns (error: int)
      requires Valid()
      modifies this, space
      ensures Valid() && old(space) <= space && fresh(space - old(space))
      ensures index in old(bindings) ==> error == PRESENT && unchanged(this, old(space))
      ensures index !in old(bindings) ==> error == 0 || error == NO_MEMORY
      ensures error == NO_MEMORY ==> bindings == old(bindings) && supply == 0 && old(supply) < MOST_NODES
      ensures index !in old(bindings) ==> (error == NO_MEMORY <==> old(supply) < Needed(old(at), old(rnode), old(height), index))
      ensures error == 0 ==> height == LeastHeight(index, old(height)) && supply == old(supply) - Needed(old(at), old(rnode), old(height), index)
      ensures error == NO_MEMORY ==> height == Reached(old(rnode), old(height), old(supply), index)
      ensures error == 0 ==> bindings == if item == 0 then old(bindings) else old(bindings)[index := item]
      ensures old(Counts()) ==> (Counts() <==> error != 0 || item != 0 || height == 0)
    {
      hide Ok, Leads, SlotOk, Prefix, Counted, Needed, LeastHeight;
      var slot;
      error, slot := Reserve(index);
      if error == 0 {
        HeldOk(Snap(space), at, bindings, rnode, height, slot, index, 0);
        Leaf(at, bindings, Get(slot), index);
        Store(slot, item, index);
        assert index !in old(bindings) ==> old(bindings)[index := RESERVED] - {index} == old(bindings);
      }
    }

    /** The item goes into the reserved slot. */
    method Store(slot: Place, item: u32, ghost index: u32)
      requires Valid() && Prefix(index, height) == 0 && Leads(at, height, slot, index, 0)
      requires slot.At? ==> slot.node in space && slot.k < |slot.node.slots|
      requires Get(slot) != Null
      modifies this`rnode, this`bindings, if slot.At? then {slot.node} else {}
      ensures Valid() && bindings == if item == 0 then old(bindings) - {index} else old(bindings)[index := item]
      ensures old(Counts()) ==> (Counts() <==> item != 0 || height == 0)
    {
      hide Ok, Leads, Prefix, Counted;
      ghost var m := Snap(space);
      var s := if item == 0 then Null else Item(item);
      if Counted(m) { CountedFill(m, rnode, slot, s); }
      HeldOk(m, at, bindings, rnode, height, slot, index, 0);
      AtTop(at, height, slot, index);
      if item == 0 {
        Unbound(m, at, bindings, rnode, height, slot, index);
      } else {
        Bound(m, at, bindings, rnode, height, slot, index, item, 0);
      }
      Put(slot, s);
      bindings := if item == 0 then bindings - {index} else bindings[index := item];
    }

    /** radix_tree_lookup. */
    method Lookup(index: u32) returns (item: Slot)
      requires Valid()
      ensures item == if index in bindings then Item(bindings[index]) else Null
    {
      hide Ok, Leads, SlotOk, MaxIndex, Prefix, Shr;
      Bounded(Snap(space), at, bindings, rnode, height, index);
      Fits(index, height);
      if index > MaxIndex(height) { return Null; }
      var slot, h := AtRoot, height;
      var shift := (h - 1) * MAP_SHIFT;
      assert Leads(at, height, slot, index, h) by { Start(at, height, index); }
      while h > 0
        invariant 0 <= h <= height && shift == (h - 1) * MAP_SHIFT && Leads(at, height, slot, index, h)
      {
        HeldOk(Snap(space), at, bindings, rnode, height, slot, index, h);
        if Get(slot) == Null {
          Missing(at, bindings, index, h);
          return Null;
        }
        Down(at, bindings, Get(slot), height, index, h);
        ShrPrefix(index, h - 1);
        slot := At(Get(slot).node, Shr(index, shift) % MAP_SIZE);
        shift, h := shift - MAP_SHIFT, h - 1;
      }
      HeldOk(Snap(space), at, bindings, rnode, height, slot, index, 0);
      Leaf(at, bindings, Get(slot), index);
      item := Get(slot);
    }
  }

  lemma {:induction false} Least(index: u32, height: nat, h: nat)
    requires height <= h <= MAX_HEIGHT && index <= MaxIndex(h) && forall g :: height <= g < h ==> index > MaxIndex(g)
    ensures LeastHeight(index, height) == h
    decreases h - height
  {
    hide MaxIndex;
    if height < h { Least(index, height + 1, h); }
  }

  /** The nodes after the tree has grown from height g to height h. */
  ghost predicate Topped(at: Places, at': Places, g: nat, h: nat) {
    forall q :: q in at' <==> q in at || (q.p == 0 && g < q.h <= h)
  }

  lemma {:induction false} SameTop(at: Places, g: nat)
    ensures Topped(at, at, g, g)
  {
  }

  lemma {:induction false} MoreTop(at: Places, at': Places, g: nat, h: nat, n: Node)
    requires Topped(at, at', g, h) && g <= h
    ensures Topped(at, at'[Pos(h + 1, 0) := n], g, h + 1)
  {
  }

  lemma {:induction false} Places0(m: Mem, at: Places, b: Bindings, rnode: Slot, height: nat)
    requires Ok(m, at, b, rnode, height)
    ensures Placed(at, height)
  {
  }

  lemma {:induction false} AllGaps(index: u32, h: nat)
    ensures Gaps(map[], index, h) == h
  {
    if h > 0 { AllGaps(index, h - 1); }
  }

  /** Above the old root only the new one is on the way to an index that did not fit, and below it nothing is. */
  lemma {:induction false} TopGaps(at: Places, at': Places, index: u32, g: nat, h: nat)
    requires Placed(at, g) && Topped(at, at', g, h) && g < h <= MAX_HEIGHT && index <= MaxIndex(h)
    requires forall k :: g <= k < h ==> index > MaxIndex(k)
    ensures Gaps(at', index, h) == h - 1
  {
    hide MaxIndex;
    Fits(index, h);
    assert Pos(h, Prefix(index, h)) in at';
    NoneOnWay(at, at', index, g, h, h - 1);
  }

  lemma {:induction false} NoneOnWay(at: Places, at': Places, index: u32, g: nat, h: nat, k: nat)
    requires Placed(at, g) && Topped(at, at', g, h) && g < h <= MAX_HEIGHT && k < h
    requires forall k :: g <= k < h ==> index > MaxIndex(k)
    ensures Gaps(at', index, k) == k
  {
    hide MaxIndex, Prefix;
    if k > 0 {
      NoneOnWay(at, at', index, g, h, k - 1);
      Fits(index, g);
      Fits(index, k);
      if Pos(k, Prefix(index, k)) in at {
        Level(at, g, Pos(k, Prefix(index, k)));
        OnPath(at, g, index, k, g);
        assert Pos(g, Prefix(index, g)) in at;
      }
    }
  }

  /** From level h down the nodes on the way to index are the same. */
  ghost predicate SameBelow(at: Places, at': Places, index: u32, h: nat) {
    forall g :: 0 < g <= h ==> (Pos(g, Prefix(index, g)) in at <==> Pos(g, Prefix(index, g)) in at')
  }

  lemma {:induction false} SameStart(at: Places, index: u32, h: nat)
    ensures SameBelow(at, at, index, h)
  {
  }

  lemma {:induction false} GapStep(at: Places, at': Places, index: u32, h: nat)
    requires SameBelow(at, at', index, h) && h > 0
    ensures Gaps(at, index, h) == Gaps(at, index, h - 1) + if Pos(h, Prefix(index, h)) in at' then 0 else 1
  {
    hide Prefix;
  }

  lemma {:induction false} Lower(at: Places, at': Places, at'': Places, index: u32, h: nat)
    requires SameBelow(at, at', index, h) && h > 0
    requires var q := Pos(h, Prefix(index, h)); at'' == at' || (q in at'' && at'' == at'[q := at''[q]])
    ensures SameBelow(at, at'', index, h - 1)
  {
    hide Prefix;
  }

  lemma {:induction false} NoGaps(at: Places, index: u32)
    ensures Gaps(at, index, 0) == 0
  {
  }

  lemma {:induction false} Present(at: Places, b: Bindings, s: Slot, h: nat, p: nat)
    requires SlotOk(at, b, s, h, p) && h > 0
    ensures s == Null <==> Pos(h, p) !in at
  {
  }

  lemma {:induction false} Whole()
    ensures Pow16(MAX_HEIGHT) == 0x1_0000_0000
  {
    assert Pow16(4) == 0x1_0000;
  }

  lemma {:induction false} Start(at: Places, height: nat, index: nat)
    ensures Leads(at, height, AtRoot, index, height)
  {
  }

  lemma {:induction false} AtTop(at: Places, height: nat, place: Place, index: nat)
    requires Leads(at, height, place, index, 0) && (place.At? ==> 0 < height)
    ensures place.AtRoot? <==> height == 0
  {
  }

  lemma {:induction false} Missing(at: Places, b: Bindings, index: nat, h: nat)
    requires SlotOk(at, b, Null, h, Prefix(index, h))
    ensures index !in b
  {
  }

  lemma {:induction false} Bounded(m: Mem, at: Places, b: Bindings, rnode: Slot, height: nat, index: nat)
    requires Ok(m, at, b, rnode, height)
    ensures height <= MAX_HEIGHT && (index in b ==> Prefix(index, height) == 0)
  {
  }

  lemma {:induction false} Leaf(at: Places, b: Bindings, s: Slot, index: nat)
    requires SlotOk(at, b, s, 0, Prefix(index, 0))
    ensures s == if index in b then Item(b[index]) else Null
  {
  }
}
