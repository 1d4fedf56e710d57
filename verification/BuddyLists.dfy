/** The ten lists of the buddy allocator (mm/buddy.c) as rings of list entries, one in each page record. */
module BuddyLists {
  import opened Words
  import opened Ring

  const NR_MEM_LISTS := 10

  /** What a list holds, by page number, and its counter. */
  datatype Queue = Queue(list: seq<nat>, nrFree: int)
  datatype PagePtr = NoPage | PageAt(k: nat)
  datatype Page = Page(flags: bv8, address: nat)

  ghost predicate Below(s: seq<nat>, n: nat) {
    forall i :: 0 <= i < |s| ==> s[i] < n
  }

  /** The list entries of the pages in s. */
  ghost function Entries(nodes: seq<ListHead>, s: seq<nat>): (r: seq<ListHead>)
    requires Below(s, |nodes|)
    ensures |r| == |s|
  {
    seq(|s|, j requires 0 <= j < |s| => nodes[s[j]])
  }

  /** No page is on two lists. */
  ghost predicate OneList(q: seq<Queue>) {
    forall i, j, x :: 0 <= i < |q| && 0 <= j < |q| && x in q[i].list && x in q[j].list ==> i == j
  }

  /** Page k belongs before the i-th page of s: the first with a larger address. */
  ghost predicate FirstLarger(pages: seq<Page>, s: seq<nat>, k: nat, i: nat) {
    && k < |pages| && Below(s, |pages|) && i <= |s|
    && (forall j :: 0 <= j < i ==> pages[s[j]].address <= pages[k].address)
    && (i < |s| ==> pages[k].address < pages[s[i]].address)
  }

  /** Joining the two pages at pos of list i into one entry at the end of the next list. */
  ghost function Joined(q: seq<Queue>, i: nat, pos: nat): seq<Queue>
    requires i + 1 < |q| && pos + 1 < |q[i].list|
  {
    var s := q[i].list;
    q[i := Queue(s[..pos] + s[pos + 2..], q[i].nrFree - 2)]
     [i + 1 := Queue(q[i + 1].list + [s[pos]], q[i + 1].nrFree + 1)]
  }

  /** is_pageclosed on two addresses, in 32-bit arithmetic. */
  predicate PageClosed(prev: nat, next: nat, order: nat) {
    var index := Pow2(order);
    (prev + index * PAGE_SIZE) % M == next || (prev - index * PAGE_SIZE) % M == next
  }

  /** The page at pos of list i and the next one are joined. */
  ghost predicate Meets(pages: seq<Page>, q: seq<Queue>, i: nat, pos: nat)
    requires i < |q| && Below(q[i].list, |pages|) && pos < |q[i].list|
  {
    var s := q[i].list;
    pos + 1 < |s| && PageClosed(pages[s[pos]].address, pages[s[pos + 1]].address, i)
  }

  /** The lists after the pairing walk over list i, from its pos-th entry on. */
  ghost function Pass(pages: seq<Page>, q: seq<Queue>, i: nat, pos: nat): (r: seq<Queue>)
    requires i + 1 < |q| && Below(q[i].list, |pages|) && Below(q[i + 1].list, |pages|)
    ensures |r| == |q| && Below(r[i + 1].list, |pages|) && forall k :: 0 <= k < |q| && k != i && k != i + 1 ==> r[k] == q[k]
    decreases |q[i].list| - pos
  {
    if pos >= |q[i].list| then
      q
    else if Meets(pages, q, i, pos) then
      Pass(pages, Joined(q, i, pos), i, pos)
    else
      Pass(pages, q, i, pos + 1)
  }

  /** The lists after the pairing walks over the lists from i on. */
  ghost function Tidied(pages: seq<Page>, q: seq<Queue>, i: nat): seq<Queue>
    requires i < |q| && forall k :: i <= k < |q| ==> Below(q[k].list, |pages|)
    decreases |q| - i
  {
    if i + 1 == |q| || q[i].nrFree <= 0 then q else Tidied(pages, Pass(pages, q, i, 0), i + 1)
  }

  /** Heads and page entries are all different, and the lists hold pages that there are. */
  ghost predicate Shape(heads: seq<ListHead>, nodes: seq<ListHead>, nr: seq<int>, q: seq<Queue>) {
    && |heads| == |nr| == |q| == NR_MEM_LISTS
    && NoDup(heads + nodes)
    && (forall k :: 0 <= k < |nodes| ==> nodes[k].owner == k)
    && (forall i :: 0 <= i < NR_MEM_LISTS ==> nr[i] == q[i].nrFree && Below(q[i].list, |nodes|))
    && OneList(q)
  }

  ghost function RingOf(heads: seq<ListHead>, nodes: seq<ListHead>, q: seq<Queue>, i: nat): seq<ListHead>
    requires i < |heads| && i < |q| && Below(q[i].list, |nodes|)
  {
    [heads[i]] + Entries(nodes, q[i].list)
  }

  lemma {:induction false} Different(a: seq<ListHead>, b: seq<ListHead>, i: nat, j: nat)
    requires NoDup(a + b)
    ensures i < |a| && j < |a| && a[i] == a[j] ==> i == j
    ensures i < |b| && j < |b| && b[i] == b[j] ==> i == j
    ensures i < |a| && j < |b| ==> a[i] != b[j]
  {
    var s := a + b;
    assert i < |a| ==> s[i] == a[i];
    assert j < |a| ==> s[j] == a[j];
    assert i < |b| ==> s[|a| + i] == b[i];
    assert j < |b| ==> s[|a| + j] == b[j];
  }

  /** A page that is on no list has an entry in no ring. */
  lemma {:induction false} NotOn(heads: seq<ListHead>, nodes: seq<ListHead>, nr: seq<int>, q: seq<Queue>, i: nat, k: nat)
    requires Shape(heads, nodes, nr, q) && i < NR_MEM_LISTS && k < |nodes| && k !in q[i].list
    ensures nodes[k] !in RingOf(heads, nodes, q, i)
  {
    hide NoDup;
    var s, x := q[i].list, nodes[k];
    Different(heads, nodes, i, k);
    if x in RingOf(heads, nodes, q, i) {
      var a :| 0 <= a < |s| && nodes[s[a]] == x;
      Different(heads, nodes, s[a], k);
    }
  }

  lemma {:induction false} HeadNotOn(heads: seq<ListHead>, nodes: seq<ListHead>, nr: seq<int>, q: seq<Queue>, i: nat, j: nat)
    requires Shape(heads, nodes, nr, q) && i < NR_MEM_LISTS && j < NR_MEM_LISTS && i != j
    ensures heads[i] !in RingOf(heads, nodes, q, j)
  {
    hide NoDup;
    Different(heads, nodes, i, j);
    forall b | 0 <= b < |q[j].list| ensures nodes[q[j].list[b]] != heads[i] { Different(heads, nodes, i, q[j].list[b]); }
  }

  /** Two rings share no record. */
  lemma {:induction false} RingsApart(heads: seq<ListHead>, nodes: seq<ListHead>, nr: seq<int>, q: seq<Queue>, i: nat, j: nat)
    requires Shape(heads, nodes, nr, q) && i < NR_MEM_LISTS && j < NR_MEM_LISTS && i != j
    ensures forall x :: x in RingOf(heads, nodes, q, i) ==> x !in RingOf(heads, nodes, q, j)
  {
    hide NoDup;
    var s := q[i].list;
    HeadNotOn(heads, nodes, nr, q, i, j);
    forall x | x in RingOf(heads, nodes, q, i) ensures x !in RingOf(heads, nodes, q, j) {
      if x != heads[i] {
        var a :| 0 <= a < |s| && nodes[s[a]] == x;
        assert s[a] in s;
        NotOn(heads, nodes, nr, q, j, s[a]);
      }
    }
  }

  lemma {:induction false} RingsWithin(heads: seq<ListHead>, nodes: seq<ListHead>, nr: seq<int>, q: seq<Queue>, i: nat)
    requires Shape(heads, nodes, nr, q) && i < NR_MEM_LISTS
    ensures forall x :: x in RingOf(heads, nodes, q, i) ==> x in heads || x in nodes
  {
  }

  class Lists {
    const heads: seq<ListHead>
    var pages: seq<Page> // the page records
    var nodes: seq<ListHead> // and the list entries in them
    var nr: seq<int>
    ghost var queue: seq<Queue>

    /** The links form the lists of q. */
    ghost predicate Linked(q: seq<Queue>)
      reads this, heads, nodes
    {
      Shape(heads, nodes, nr, q) &&
      (RingsWithinAll(heads, nodes, nr, q);
       forall i :: 0 <= i < NR_MEM_LISTS ==> Circle(RingOf(heads, nodes, q, i)))
    }

    ghost predicate Valid()
      reads this, heads, nodes
    {
      Linked(queue) && |pages| == |nodes|
    }

    lemma Sizes()
      requires Valid()
      ensures |queue| == |nr| == |heads| == NR_MEM_LISTS && |pages| == |nodes|
      ensures forall i :: 0 <= i < NR_MEM_LISTS ==> nr[i] == queue[i].nrFree && Below(queue[i].list, |pages|)
    {
    }

    ghost predicate OnList(k: nat)
      reads this`queue
    {
      exists i :: 0 <= i < |queue| && k in queue[i].list
    }

    /** buddy_list_init. */
    constructor ()
      ensures Valid() && pages == [] && fresh(heads) && queue == seq(NR_MEM_LISTS, _ => Queue([], 0))
    {
      var hs: seq<ListHead> := [];
      while |hs| < NR_MEM_LISTS
        invariant |hs| <= NR_MEM_LISTS && NoDup(hs) && fresh(hs)
        invariant forall i :: 0 <= i < |hs| ==> Circle([hs[i]])
      {
        var head := new ListHead(0);
        assert head !in hs;
        Init(head);
        assert [head] + [] == [head];
        ghost var was := hs;
        hs := hs + [head];
        assert forall i :: 0 <= i < |was| ==> [hs[i]] == [was[i]];
      }
      heads := hs;
      pages, nodes, nr := [], [], seq(NR_MEM_LISTS, _ => 0);
      queue := seq(NR_MEM_LISTS, _ => Queue([], 0));
      new;
      assert heads + nodes == heads;
      forall i | 0 <= i < NR_MEM_LISTS ensures Circle(RingOf(heads, nodes, queue, i)) {
        assert RingOf(heads, nodes, queue, i) == [heads[i]];
      }
    }

    /** One more page record, on no list. */
    method AddPage(page: Page)
      requires Valid()
      modifies this`pages, this`nodes
      ensures Valid() && pages == old(pages) + [page] && queue == old(queue)
      ensures |nodes| == |old(nodes)| + 1 && nodes[..|old(nodes)|] == old(nodes) && fresh(nodes[|old(nodes)|])
    {
      hide Circle, OneList;
      var entry := new ListHead(|nodes|);
      ghost var was := nodes;
      assert (heads + nodes) + [entry] == heads + (nodes + [entry]);
      pages, nodes := pages + [page], nodes + [entry];
      assert Shape(heads, nodes, nr, queue);
      forall i | 0 <= i < NR_MEM_LISTS ensures Circle(RingOf(heads, nodes, queue, i)) {
        assert RingOf(heads, nodes, queue, i) == RingOf(heads, was, queue, i);
        assert old(Circle(RingOf(heads, was, queue, i)));
      }
    }

    /** buddy_list_del: takes the first page off a list. */
    method Del(order: nat) returns (error: int, item: nat)
      requires Valid()
      modifies this`nr, this`queue, heads, nodes
      ensures Valid()
      ensures error == if order >= NR_MEM_LISTS then -1 else if old(queue)[order].list == [] then -2 else 0
      ensures error != 0 ==> queue == old(queue)
      ensures error == 0 ==> item == old(queue)[order].list[0]
      ensures error == 0 ==> queue == old(queue)[order := Queue(old(queue)[order].list[1..], old(queue)[order].nrFree - 1)]
    {
      hide Circle, NoDup, OneList;
      item := 0;
      if order >= NR_MEM_LISTS { return -1, item; }
      ghost var s := queue[order].list;
      assert Circle(RingOf(heads, nodes, queue, order));
      var e, entry := GetHead(heads[order], Entries(nodes, s));
      if e != 0 { return -2, item; }
      item := entry.owner;
      assert s[..0] + s[1..] == s[1..];
      Cut(entry, order, 0);
      error := 0;
    }

    /** Notes that the i-th page of a list is no more on it. */
    ghost method Dropped(q: seq<Queue>, order: nat, i: nat)
      requires queue == q && |nr| == NR_MEM_LISTS == |q| && order < NR_MEM_LISTS && i < |q[order].list| && |pages| == |nodes|
      requires Shape(heads, nodes, nr[order := q[order].nrFree], q) && nr[order] == q[order].nrFree - 1
      requires forall j :: 0 <= j < NR_MEM_LISTS && j != order ==> Circle(RingOf(heads, nodes, q, j))
      requires Circle([heads[order]] + (Entries(nodes, q[order].list)[..i] + Entries(nodes, q[order].list)[i + 1..]))
      modifies this`queue
      ensures Valid()
      ensures queue == q[order := Queue(q[order].list[..i] + q[order].list[i + 1..], nr[order])]
    {
      hide Circle, NoDup;
      var s := q[order].list;
      var s' := s[..i] + s[i + 1..];
      queue := q[order := Queue(s', nr[order])];
      ShapeLess(heads, nodes, nr, q, order, i);
      assert Entries(nodes, s') == Entries(nodes, s)[..i] + Entries(nodes, s)[i + 1..];
      assert forall j :: 0 <= j < NR_MEM_LISTS && j != order ==> RingOf(heads, nodes, queue, j) == RingOf(heads, nodes, q, j);
    }

    /** buddy_list_add: puts a page at the end of a list.  If it is on a list already, the links form no lists any
        more. */
    method Add(page: PagePtr, order: nat) returns (error: int)
      requires Valid() && (page.PageAt? ==> page.k < |pages|)
      modifies this`nr, this`queue, heads, nodes
      ensures error == if page.NoPage? || order >= NR_MEM_LISTS then -1 else 0
      ensures error != 0 ==> Valid() && queue == old(queue)
      ensures error == 0 && !old(OnList(page.k)) ==>
                Valid() && queue == old(queue)[order := Queue(old(queue)[order].list + [page.k], old(queue)[order].nrFree + 1)]
      ensures error == 0 && old(OnList(page.k)) ==> forall q :: !Linked(q)
    {
      hide Circle, NoDup, OneList;
      if page.NoPage? || order >= NR_MEM_LISTS { return -1; }
      ghost var s, c := queue[order].list, RingOf(heads, nodes, queue, order);
      assert Circle(c);
      Neighbours(c, 0);
      assert s[..|s|] + [page.k] + s[|s|..] == s + [page.k];
      FileAt(page.k, order, heads[order].prev, heads[order], |s|);
      error := 0;
    }

    /** Links a page between the i-th and the next entry of a ring, the head being the 0-th. */
    method FileAt(k: nat, order: nat, prev: ListHead, next: ListHead, ghost i: nat)
      requires Valid() && order < NR_MEM_LISTS && k < |nodes| && i <= |queue[order].list|
      requires prev == RingOf(heads, nodes, queue, order)[i] && next == Succ(RingOf(heads, nodes, queue, order), i)
      modifies this`nr, this`queue, heads, nodes
      ensures !old(OnList(k)) ==> Valid()
      ensures !old(OnList(k)) ==>
                queue == old(queue)[order := Queue(old(queue)[order].list[..i] + [k] + old(queue)[order].list[i..], old(queue)[order].nrFree + 1)]
      ensures old(OnList(k)) ==> forall q :: !Linked(q)
    {
      hide Circle, NoDup, OneList, Between;
      ghost var q, nr0 := queue, nr;
      ghost var m, j := Link(k, order, prev, next, i);
      nr := nr[order := nr[order] + 1];
      if OnList(k) {
        Spoilt(q, nr0, m, j, order, i, prev, next);
      } else {
        Filed(q, order, k, i);
      }
    }

    /** The four stores of it, and where they leave the links. */
    method Link(k: nat, order: nat, prev: ListHead, next: ListHead, ghost i: nat) returns (ghost m: nat, ghost j: nat)
      requires Valid() && order < NR_MEM_LISTS && k < |nodes| && i <= |queue[order].list|
      requires prev == RingOf(heads, nodes, queue, order)[i] && next == Succ(RingOf(heads, nodes, queue, order), i)
      modifies heads, nodes
      ensures !OnList(k) ==>
                && (forall j :: 0 <= j < NR_MEM_LISTS && j != order ==> Circle(RingOf(heads, nodes, queue, j)))
                && Circle([heads[order]] + (Entries(nodes, queue[order].list)[..i] + [nodes[k]] + Entries(nodes, queue[order].list)[i..]))
      ensures OnList(k) ==>
                && m < NR_MEM_LISTS && j < |queue[m].list| && queue[m].list[j] == k && Between(nodes[k], prev, next)
                && Unmoved(RingOf(heads, nodes, queue, m), nodes[k], prev, next)
    {
      hide Circle, NoDup, OneList, Between, Forward, Backward, Unmoved;
      ghost var c, es := RingOf(heads, nodes, queue, order), Entries(nodes, queue[order].list);
      m, j := 0, 0;
      RingsWithin(heads, nodes, nr, queue, order);
      OthersApart(heads, nodes, nr, queue, order);
      if OnList(k) { m, j := Whereabouts(k); } else { Ready(order, k); }
      ghost var cm := RingOf(heads, nodes, queue, m);
      AllLinks(cm);
      ghost var ns, ps := Nexts(cm), Prevs(cm);
      assert c[i] in c && Succ(c, i) in c && Circle(c);
      AddBetween(nodes[k], prev, next, c, i);
      if OnList(k) {
        StillLinked(ns, ps, cm, nodes[k], prev, next);
      } else {
        assert Longer(c, i, nodes[k]) == [heads[order]] + (es[..i] + [nodes[k]] + es[i..]);
        forall j | 0 <= j < NR_MEM_LISTS && j != order ensures Circle(RingOf(heads, nodes, queue, j)) {
          ghost var d := RingOf(heads, nodes, queue, j);
          assert old(Circle(d));
          assert forall a :: 0 <= a < |d| ==> d[a] in d && d[a] !in c && d[a] != nodes[k];
        }
      }
    }

    /** The list of a page, and the place before it in the ring. */
    lemma Whereabouts(k: nat) returns (m: nat, j: nat)
      requires Valid() && OnList(k)
      ensures m < NR_MEM_LISTS && j < |queue[m].list| && queue[m].list[j] == k && Circle(RingOf(heads, nodes, queue, m))
    {
      hide Circle, NoDup, OneList;
      m :| m < |queue| && k in queue[m].list;
      j :| j < |queue[m].list| && queue[m].list[j] == k;
    }

    /** No lists fit the links once the page at place j of list m has been linked in again, between prev and next. */
    lemma Spoilt(q: seq<Queue>, nr0: seq<int>, m: nat, j: nat, order: nat, i: nat, prev: ListHead, next: ListHead)
      requires |nr| == |q| == NR_MEM_LISTS && m < NR_MEM_LISTS && order < NR_MEM_LISTS && j < |q[m].list| && i <= |q[order].list|
      requires Shape(heads, nodes, nr0, q)
      requires prev == RingOf(heads, nodes, q, order)[i] && next == Succ(RingOf(heads, nodes, q, order), i)
      requires Between(nodes[q[m].list[j]], prev, next)
      requires Unmoved(RingOf(heads, nodes, q, m), nodes[q[m].list[j]], prev, next)
      ensures forall q' :: !Linked(q')
    {
      hide Circle, NoDup, OneList;
      var c, co := RingOf(heads, nodes, q, m), RingOf(heads, nodes, q, order);
      assert co[i] in co;
      if m != order { RingsApart(heads, nodes, nr0, q, order, m); }
      forall q' ensures !Linked(q') {
        if Shape(heads, nodes, nr, q') {
          Twice(c, j, prev, next, i, RingOf(heads, nodes, q', m));
        }
      }
    }

    /** buddy_list_add_line: puts a page before the first one with a larger address, or last.  If it is on a list
        already, the links form no lists any more. */
    method AddLine(page: PagePtr, order: nat) returns (error: int, ghost i: nat)
      requires Valid() && (page.PageAt? ==> page.k < |pages|)
      modifies this`nr, this`queue, heads, nodes
      ensures error == if page.NoPage? || order >= NR_MEM_LISTS then -1 else 0
      ensures error != 0 ==> Valid() && queue == old(queue)
      ensures error == 0 && !old(OnList(page.k)) ==> Valid() && FirstLarger(pages, old(queue)[order].list, page.k, i)
      ensures error == 0 && !old(OnList(page.k)) ==>
                queue == old(queue)[order := Queue(old(queue)[order].list[..i] + [page.k] + old(queue)[order].list[i..], old(queue)[order].nrFree + 1)]
      ensures error == 0 && old(OnList(page.k)) ==> forall q :: !Linked(q)
    {
      hide Circle, NoDup, OneList;
      i := 0;
      if page.NoPage? || order >= NR_MEM_LISTS { return -1, i; }
      var k, head := page.k, heads[order];
      ghost var s, c := queue[order].list, RingOf(heads, nodes, queue, order);
      assert Circle(c);
      EmptyIs(head, Entries(nodes, s));
      if EmptyCareful(head) {
        assert s == [];
        assert s[..0] + [k] + s[0..] == s + [k];
        error := Add(page, order);
        return 0, 0;
      }
      var prev, next;
      prev, next, i := FindLine(k, order);
      FileAt(k, order, prev, next, i);
      error := 0;
    }

    /** The walk of buddy_list_add_line over a list that is not empty: the two neighbours to link the page between. */
    method FindLine(k: nat, order: nat) returns (prev: ListHead, next: ListHead, ghost i: nat)
      requires Valid() && order < NR_MEM_LISTS && k < |nodes| && queue[order].list != []
      ensures FirstLarger(pages, queue[order].list, k, i)
      ensures prev == RingOf(heads, nodes, queue, order)[i] && next == Succ(RingOf(heads, nodes, queue, order), i)
    {
      hide Circle, NoDup, OneList;
      var head := heads[order];
      ghost var s, c := queue[order].list, RingOf(heads, nodes, queue, order);
      assert Circle(c);
      Neighbours(c, 0);
      var pos := head.next;
      i := 0;
      while true
        invariant i < |s| && pos == c[i + 1]
        invariant forall j :: 0 <= j < i ==> pages[s[j]].address <= pages[k].address
        decreases |s| - i
      {
        Neighbours(c, i + 1);
        NotHead(heads, nodes, nr, queue, order, i + 1);
        assert pos.owner == s[i];
        var n := pos.next;
        if pages[k].address < pages[pos.owner].address {
          return pos.prev, pos, i;
        }
        if pos.next == head {
          return pos, n, i + 1;
        }
        pos := n;
        i := i + 1;
      }
    }

    /** list_del of the i-th entry of a list, counted off. */
    method Cut(entry: ListHead, order: nat, ghost i: nat)
      requires Valid() && order < NR_MEM_LISTS && i < |queue[order].list| && entry == nodes[queue[order].list[i]]
      modifies this`nr, this`queue, heads, nodes
      ensures Valid()
      ensures queue == old(queue)[order := Queue(old(queue)[order].list[..i] + old(queue)[order].list[i + 1..], old(queue)[order].nrFree - 1)]
    {
      hide Circle, NoDup, OneList;
      ghost var q, es := queue, Entries(nodes, queue[order].list);
      RingsWithin(heads, nodes, nr, queue, order);
      OthersApart(heads, nodes, nr, queue, order);
      assert Circle(RingOf(heads, nodes, queue, order));
      Ring.Del(entry, heads[order], es, i);
      forall j | 0 <= j < NR_MEM_LISTS && j != order ensures Circle(RingOf(heads, nodes, q, j)) {
        ghost var d := RingOf(heads, nodes, q, j);
        assert old(Circle(d));
        assert forall a :: 0 <= a < |d| ==> d[a] in d && d[a] !in RingOf(heads, nodes, q, order);
      }
      nr := nr[order := nr[order] - 1];
      Dropped(q, order, i);
    }

    /** Takes two neighbours off a list and puts the first at the end of the next one. */
    method Join(pos: ListHead, order: nat, ghost i: nat)
      requires Valid() && order + 1 < NR_MEM_LISTS && i + 1 < |queue[order].list| && pos == nodes[queue[order].list[i]]
      modifies this`nr, this`queue, heads, nodes
      ensures Valid() && queue == Joined(old(queue), order, i)
    {
      hide Circle, NoDup, OneList;
      ghost var q, s := queue, queue[order].list;
      Inner(order, i);
      Single(order, i);
      Cut(pos.next, order, i + 1);
      ghost var s1 := s[..i + 1] + s[i + 2..];
      assert s1[i] == s[i];
      Cut(pos, order, i);
      assert s1[..i] + s1[i + 1..] == s[..i] + s[i + 2..];
      var error := Add(PageAt(pos.owner), order + 1);
    }

    /** The pairing walk over list i. */
    method TidyOrder(i: nat)
      requires Valid() && i + 1 < NR_MEM_LISTS
      modifies this`nr, this`queue, heads, nodes
      ensures Valid() && queue == Pass(pages, old(queue), i, 0)
    {
      hide Circle, NoDup, OneList, Joined, PageClosed, Pass;
      ghost var p := 0;
      FirstEntry(i);
      var head := heads[i];
      var pos := head.next;
      while pos != null && pos != head
        invariant Valid() && p <= |queue[i].list|
        invariant pos == if p < |queue[i].list| then nodes[queue[i].list[p]] else head
        invariant Pass(pages, queue, i, p) == Pass(pages, old(queue), i, 0)
        decreases |queue[i].list| - p
      {
        Inner(i, p);
        var n := pos.next;
        PassStep(pages, queue, i, p);
        if p + 1 < |queue[i].list| { Inner(i, p + 1); }
        if pos.next != head {
          if PageClosed(pages[pos.owner].address, pages[pos.next.owner].address, i) {
            n := pos.next.next;
            JoinedAt(queue, i, p);
            Join(pos, i, p);
          } else {
            p := p + 1;
          }
        } else {
          p := p + 1;
        }
        pos := n;
      }
      if p < |queue[i].list| { Inner(i, p); }
      PassEnd(pages, queue, i, p);
    }

    /** buddy_list_tidy. */
    method Tidy()
      requires Valid()
      modifies this`nr, this`queue, heads, nodes
      ensures Valid() && queue == Tidied(pages, old(queue), 0)
    {
      hide Circle, NoDup, OneList, Pass;
      for i := 0 to NR_MEM_LISTS - 1
        invariant Valid() && Tidied(pages, queue, i) == Tidied(pages, old(queue), 0)
      {
        if nr[i] <= 0 { return; }
        TidyOrder(i);
      }
    }

    /** The neighbours of an entry inside a ring. */
    lemma Inner(order: nat, i: nat)
      requires Valid() && order < NR_MEM_LISTS && i < |queue[order].list|
      ensures var s, e := queue[order].list, nodes[queue[order].list[i]];
              && e.owner == s[i] && e != heads[order] && e.next == if i + 1 < |s| then nodes[s[i + 1]] else heads[order]
    {
      var c := RingOf(heads, nodes, queue, order);
      assert Circle(c) && c[i + 1] == nodes[queue[order].list[i]];
      Neighbours(c, i + 1);
      Different(heads, nodes, order, queue[order].list[i]);
      hide Circle, NoDup;
    }

    lemma FirstEntry(order: nat)
      requires Valid() && order < NR_MEM_LISTS
      ensures var s := queue[order].list; heads[order].next == if s != [] then nodes[s[0]] else heads[order]
    {
      var c := RingOf(heads, nodes, queue, order);
      assert Circle(c);
      Neighbours(c, 0);
      hide Circle, NoDup;
    }

    /** A page is on its list once. */
    lemma Single(order: nat, i: nat)
      requires Valid() && order < NR_MEM_LISTS && i < |queue[order].list|
      ensures queue[order].list[i] !in queue[order].list[..i] && queue[order].list[i] !in queue[order].list[i + 1..]
      ensures forall j :: 0 <= j < NR_MEM_LISTS && j != order ==> queue[order].list[i] !in queue[j].list
    {
      var s, c := queue[order].list, RingOf(heads, nodes, queue, order);
      assert Circle(c);
      forall j | 0 <= j < |s| && j != i ensures s[j] != s[i] { assert c[j + 1] == nodes[s[j]] && c[i + 1] == nodes[s[i]]; }
      assert s[i] in s;
    }

    /** What a list operation may rely on. */
    lemma Ready(order: nat, k: nat)
      requires Valid() && order < NR_MEM_LISTS && k < |nodes| && !OnList(k)
      ensures Circle(RingOf(heads, nodes, queue, order))
      ensures forall x :: x in RingOf(heads, nodes, queue, order) ==> x in heads || x in nodes
      ensures forall j :: 0 <= j < NR_MEM_LISTS ==> nodes[k] !in RingOf(heads, nodes, queue, j)
      ensures forall j, x :: 0 <= j < NR_MEM_LISTS && j != order && x in RingOf(heads, nodes, queue, j) ==> x !in RingOf(heads, nodes, queue, order)
    {
      hide Circle, NoDup, OneList;
      RingsWithin(heads, nodes, nr, queue, order);
      OthersApart(heads, nodes, nr, queue, order);
      forall j | 0 <= j < NR_MEM_LISTS ensures nodes[k] !in RingOf(heads, nodes, queue, j) { NotOn(heads, nodes, nr, queue, j, k); }
    }

    /** Notes that page k is now the i-th of its list. */
    ghost method Filed(q: seq<Queue>, order: nat, k: nat, i: nat)
      requires queue == q && |nr| == NR_MEM_LISTS == |q| && order < NR_MEM_LISTS && i <= |q[order].list| && |pages| == |nodes|
      requires Shape(heads, nodes, nr[order := q[order].nrFree], q) && nr[order] == q[order].nrFree + 1 && k < |nodes| && !OnList(k)
      requires forall j :: 0 <= j < NR_MEM_LISTS && j != order ==> Circle(RingOf(heads, nodes, q, j))
      requires Circle([heads[order]] + (Entries(nodes, q[order].list)[..i] + [nodes[k]] + Entries(nodes, q[order].list)[i..]))
      modifies this`queue
      ensures Valid()
      ensures queue == q[order := Queue(q[order].list[..i] + [k] + q[order].list[i..], nr[order])]
    {
      hide Circle, NoDup;
      var s := q[order].list;
      var s' := s[..i] + [k] + s[i..];
      queue := q[order := Queue(s', nr[order])];
      ShapeMore(heads, nodes, nr, q, order, k, i);
      assert Entries(nodes, s') == Entries(nodes, s)[..i] + [nodes[k]] + Entries(nodes, s)[i..];
      assert forall j :: 0 <= j < NR_MEM_LISTS && j != order ==> RingOf(heads, nodes, queue, j) == RingOf(heads, nodes, q, j);
    }
  }

  lemma {:induction false} PassStep(pages: seq<Page>, q: seq<Queue>, i: nat, p: nat)
    requires i + 1 < |q| && Below(q[i].list, |pages|) && Below(q[i + 1].list, |pages|) && p < |q[i].list|
    ensures Meets(pages, q, i, p) ==>
              && Below(Joined(q, i, p)[i].list, |pages|) && Below(Joined(q, i, p)[i + 1].list, |pages|)
              && Pass(pages, q, i, p) == Pass(pages, Joined(q, i, p), i, p)
    ensures !Meets(pages, q, i, p) ==> Pass(pages, q, i, p) == Pass(pages, q, i, p + 1)
  {
    hide PageClosed;
  }

  lemma {:induction false} PassEnd(pages: seq<Page>, q: seq<Queue>, i: nat, p: nat)
    requires i + 1 < |q| && Below(q[i].list, |pages|) && Below(q[i + 1].list, |pages|) && p >= |q[i].list|
    ensures Pass(pages, q, i, p) == q
  {
  }

  lemma {:induction false} JoinedAt(q: seq<Queue>, i: nat, p: nat)
    requires i + 1 < |q| && p + 1 < |q[i].list|
    ensures var s, s' := q[i].list, Joined(q, i, p)[i].list;
            |s'| == |s| - 2 && (p + 2 < |s| ==> s'[p] == s[p + 2])
  {
  }

  /** Only the last entry of a ring is followed by the head. */
  lemma {:induction false} NotHead(heads: seq<ListHead>, nodes: seq<ListHead>, nr: seq<int>, q: seq<Queue>, order: nat, i: nat)
    requires Shape(heads, nodes, nr, q) && order < NR_MEM_LISTS && i <= |q[order].list|
    ensures Succ(RingOf(heads, nodes, q, order), i) == heads[order] <==> i == |q[order].list|
  {
    hide NoDup, OneList;
    if i < |q[order].list| { Different(heads, nodes, order, q[order].list[i]); }
  }

  lemma {:induction false} RingsWithinAll(heads: seq<ListHead>, nodes: seq<ListHead>, nr: seq<int>, q: seq<Queue>)
    requires Shape(heads, nodes, nr, q)
    ensures forall i, x :: 0 <= i < NR_MEM_LISTS && x in RingOf(heads, nodes, q, i) ==> x in heads || x in nodes
  {
  }

  lemma {:induction false} OthersApart(heads: seq<ListHead>, nodes: seq<ListHead>, nr: seq<int>, q: seq<Queue>, i: nat)
    requires Shape(heads, nodes, nr, q) && i < NR_MEM_LISTS
    ensures forall j, x :: 0 <= j < NR_MEM_LISTS && j != i && x in RingOf(heads, nodes, q, j) ==> x !in RingOf(heads, nodes, q, i)
  {
    hide NoDup, OneList, RingOf;
    forall j | 0 <= j < NR_MEM_LISTS && j != i
      ensures forall x :: x in RingOf(heads, nodes, q, j) ==> x !in RingOf(heads, nodes, q, i)
    {
      RingsApart(heads, nodes, nr, q, j, i);
    }
  }

  lemma {:induction false} ShapeLess(heads: seq<ListHead>, nodes: seq<ListHead>, nr: seq<int>, q: seq<Queue>, i: nat, p: nat)
    requires |nr| == |q| == |heads| == NR_MEM_LISTS && i < NR_MEM_LISTS && p < |q[i].list|
    requires Shape(heads, nodes, nr[i := q[i].nrFree], q)
    ensures Shape(heads, nodes, nr, q[i := Queue(q[i].list[..p] + q[i].list[p + 1..], nr[i])])
  {
    hide NoDup;
    var s := q[i].list;
    var s' := s[..p] + s[p + 1..];
    assert forall x :: x in s' ==> x in s;
    forall a | 0 <= a < |s'| ensures s'[a] < |nodes| { assert s'[a] in s'; }
  }

  lemma {:induction false} ShapeMore(heads: seq<ListHead>, nodes: seq<ListHead>, nr: seq<int>, q: seq<Queue>, i: nat, k: nat, p: nat)
    requires |nr| == |q| == |heads| == NR_MEM_LISTS && i < NR_MEM_LISTS && p <= |q[i].list| && k < |nodes|
    requires Shape(heads, nodes, nr[i := q[i].nrFree], q) && forall j :: 0 <= j < NR_MEM_LISTS ==> k !in q[j].list
    ensures Shape(heads, nodes, nr, q[i := Queue(q[i].list[..p] + [k] + q[i].list[p..], nr[i])])
  {
    hide NoDup;
    var s := q[i].list;
    var s' := s[..p] + [k] + s[p..];
    assert forall x :: x in s' <==> x in s || x == k by { assert s == s[..p] + s[p..]; }
    forall a | 0 <= a < |s'| ensures s'[a] < |nodes| { assert s'[a] in s'; }
  }
}
