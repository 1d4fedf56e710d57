/** The circular doubly linked lists of lib/list.c as sequences. */
module Ring {
  import opened Words

  /** A list head or an entry; a null link stands for a poisoned one. */
  class ListHead {
    var next: ListHead?
    var prev: ListHead?
    /** The number of the record that the entry is part of, for container_of. */
    const owner: nat

    constructor (owner: nat)
      ensures this.owner == owner && next == null && prev == null
    {
      this.owner := owner;
      next, prev := null, null;
    }
  }

  ghost function Succ(c: seq<ListHead>, i: nat): ListHead
    requires i < |c|
  {
    if i + 1 < |c| then c[i + 1] else c[0]
  }

  ghost function Pred(c: seq<ListHead>, i: nat): ListHead
    requires i < |c|
  {
    if i > 0 then c[i - 1] else c[|c| - 1]
  }

  type Links = map<ListHead, ListHead?>

  ghost function Nexts(space: seq<ListHead>): Links
    reads space
  {
    map x | x in space :: x.next
  }

  ghost function Prevs(space: seq<ListHead>): Links
    reads space
  {
    map x | x in space :: x.prev
  }

  ghost predicate Forward(n: Links, c: seq<ListHead>) {
    forall i {:trigger Succ(c, i)} :: 0 <= i < |c| ==> c[i] in n && n[c[i]] == Succ(c, i)
  }

  ghost predicate Backward(p: Links, c: seq<ListHead>) {
    forall i {:trigger Pred(c, i)} :: 0 <= i < |c| ==> c[i] in p && p[c[i]] == Pred(c, i)
  }

  /** The records of c are linked to each other in a circle. */
  ghost predicate Circle(c: seq<ListHead>)
    reads c
  {
    c != [] && NoDup(c) && Forward(Nexts(c), c) && Backward(Prevs(c), c)
  }

  lemma {:induction false} Neighbours(c: seq<ListHead>, i: nat)
    requires Circle(c) && i < |c|
    ensures c[i].next == Succ(c, i) && c[i].prev == Pred(c, i)
  {
    hide NoDup;
    var n, p := Succ(c, i), Pred(c, i);
    assert c[i] in Nexts(c) && c[i] in Prevs(c);
  }

  lemma {:induction false} AllLinks(c: seq<ListHead>)
    requires Circle(c)
    ensures NoDup(c) && Forward(Nexts(c), c) && Backward(Prevs(c), c)
  {
  }

  lemma {:induction false} Differ(c: seq<ListHead>, i: nat, j: nat)
    requires NoDup(c) && i < |c| && j < |c|
    ensures c[i] == c[j] <==> i == j
  {
  }

  lemma {:induction false} At(n: Links, c: seq<ListHead>, i: nat)
    requires Forward(n, c) && i < |c|
    ensures c[i] in c && c[i] in n && n[c[i]] == Succ(c, i)
  {
    var x := Succ(c, i);
  }

  lemma {:induction false} AtBack(p: Links, c: seq<ListHead>, i: nat)
    requires Backward(p, c) && i < |c|
    ensures c[i] in c && c[i] in p && p[c[i]] == Pred(c, i)
  {
    var x := Pred(c, i);
  }

  /** c with item after its i-th record. */
  ghost function Longer(c: seq<ListHead>, i: nat, item: ListHead): seq<ListHead>
    requires i < |c|
  {
    c[..i + 1] + [item] + c[i + 1..]
  }

  /** Two lists of links that agree on c outside w. */
  ghost predicate Except(n: Links, n': Links, c: seq<ListHead>, w: set<ListHead>) {
    forall x :: x in c && x !in w ==> x in n && x in n' && n'[x] == n[x]
  }

  lemma {:induction false} LongerDistinct(c: seq<ListHead>, i: nat, item: ListHead)
    requires NoDup(c) && i < |c| && item !in c
    ensures NoDup(Longer(c, i, item))
  {
  }

  lemma {:induction false} LongerForward(n: Links, n': Links, c: seq<ListHead>, i: nat, item: ListHead)
    requires NoDup(c) && Forward(n, c) && i < |c| && item !in c
    requires Except(n, n', c, {c[i]}) && item in n' && n'[item] == Succ(c, i) && c[i] in n' && n'[c[i]] == item
    ensures Forward(n', Longer(c, i, item))
  {
    hide NoDup;
    var c' := Longer(c, i, item);
    forall j | 0 <= j < |c'| ensures c'[j] in n' && n'[c'[j]] == Succ(c', j) {
      if j < i {
        Differ(c, i, j);
        At(n, c, j);
      } else if j > i + 1 {
        Differ(c, i, j - 1);
        At(n, c, j - 1);
      }
    }
  }

  lemma {:induction false} LongerBackward(p: Links, p': Links, c: seq<ListHead>, i: nat, item: ListHead)
    requires NoDup(c) && Backward(p, c) && i < |c| && item !in c
    requires Except(p, p', c, {Succ(c, i)}) && item in p' && p'[item] == c[i] && Succ(c, i) in p' && p'[Succ(c, i)] == item
    ensures Backward(p', Longer(c, i, item))
  {
    hide NoDup;
    var c' := Longer(c, i, item);
    forall j | 0 <= j < |c'| ensures c'[j] in p' && p'[c'[j]] == Pred(c', j) {
      if j <= i {
        Differ(c, if i + 1 < |c| then i + 1 else 0, j);
        AtBack(p, c, j);
      } else if j > i + 1 {
        Differ(c, i + 1, j - 1);
        AtBack(p, c, j - 1);
      }
    }
  }

  /** c without its i-th record. */
  ghost function Shorter(c: seq<ListHead>, i: nat): seq<ListHead>
    requires i < |c|
  {
    c[..i] + c[i + 1..]
  }

  lemma {:induction false} ShorterDistinct(c: seq<ListHead>, i: nat)
    requires NoDup(c) && i < |c|
    ensures NoDup(Shorter(c, i))
  {
  }

  lemma {:induction false} ShorterForward(n: Links, n': Links, c: seq<ListHead>, i: nat)
    requires NoDup(c) && Forward(n, c) && 0 < i < |c|
    requires Except(n, n', c, {c[i], c[i - 1]}) && c[i - 1] in n' && n'[c[i - 1]] == Succ(c, i)
    ensures Forward(n', Shorter(c, i))
  {
    hide NoDup;
    var c' := Shorter(c, i);
    forall j | 0 <= j < |c'| ensures c'[j] in n' && n'[c'[j]] == Succ(c', j) {
      var k := if j < i then j else j + 1;
      Differ(c, i, k);
      Differ(c, i - 1, k);
      At(n, c, k);
    }
  }

  lemma {:induction false} ShorterBackward(p: Links, p': Links, c: seq<ListHead>, i: nat)
    requires NoDup(c) && Backward(p, c) && 0 < i < |c|
    requires Except(p, p', c, {c[i], Succ(c, i)}) && Succ(c, i) in p' && p'[Succ(c, i)] == c[i - 1]
    ensures Backward(p', Shorter(c, i))
  {
    hide NoDup;
    var c' := Shorter(c, i);
    forall j | 0 <= j < |c'| ensures c'[j] in p' && p'[c'[j]] == Pred(c', j) {
      var k := if j < i then j else j + 1;
      Differ(c, i, k);
      Differ(c, if i + 1 < |c| then i + 1 else 0, k);
      AtBack(p, c, k);
    }
  }

  /** The list under head, from its first entry to its last. */
  ghost predicate List(head: ListHead, s: seq<ListHead>)
    reads [head] + s
  {
    Circle([head] + s)
  }

  ghost function Last(head: ListHead, s: seq<ListHead>): ListHead {
    if s == [] then head else s[|s| - 1]
  }

  /** A circle holds what its links lead to. */
  lemma {:induction false} Reach(d: seq<ListHead>, c: seq<ListHead>, j: nat)
    requires Circle(d) && j < |c| && c[0] in d && forall t :: 0 <= t < j ==> c[t].next == Succ(c, t)
    ensures c[j] in d
  {
    hide NoDup;
    if j > 0 {
      Reach(d, c, j - 1);
      var a :| 0 <= a < |d| && d[a] == c[j - 1];
      Neighbours(d, a);
      assert c[j - 1].next == Succ(c, j - 1);
    }
  }

  lemma {:induction false} ReachBack(d: seq<ListHead>, c: seq<ListHead>, j: nat)
    requires Circle(d) && 0 < j <= |c| && c[0] in d && c[0].prev == Pred(c, 0) && forall t :: j < t < |c| ==> c[t].prev == Pred(c, t)
    ensures (if j < |c| then c[j] else c[0]) in d
    decreases |c| - j
  {
    hide NoDup;
    if j < |c| {
      ReachBack(d, c, j + 1);
      var x := if j + 1 < |c| then c[j + 1] else c[0];
      var a :| 0 <= a < |d| && d[a] == x;
      Neighbours(d, a);
      assert x.prev == c[j];
    }
  }

  /** In a circle the link back undoes the link on. */
  lemma {:induction false} OnAndBack(d: seq<ListHead>, x: ListHead)
    requires Circle(d) && x in d
    ensures x.next != null && x.next in d && x.next.prev == x
    ensures x.prev != null && x.prev in d && x.prev.next == x
    ensures x.next == x ==> |d| == 1
  {
    var a :| 0 <= a < |d| && d[a] == x;
    Neighbours(d, a);
    Neighbours(d, if a + 1 < |d| then a + 1 else 0);
    Neighbours(d, if a > 0 then a - 1 else |d| - 1);
  }

  /** Putting an entry of the circle c, the one after the j-th, somewhere else without taking it out first leaves no
      circle through c's head; prev and next are two neighbours in c, or outside it. */
  lemma {:induction false} Twice(c: seq<ListHead>, j: nat, prev: ListHead, next: ListHead, i: nat, d: seq<ListHead>)
    requires NoDup(c) && j + 1 < |c| && Between(c[j + 1], prev, next) && Unmoved(c, c[j + 1], prev, next)
    requires prev !in c || (i < |c| && prev == c[i] && next == Succ(c, i))
    requires c[0] in d
    ensures !Circle(d)
  {
    if Circle(d) {
      var item := c[j + 1];
      if prev in c && i < j {
        assert forall t :: 0 <= t < |c| && t != i + 1 && t != j + 1 ==> c[t].prev == Pred(c, t) by { Others(c, i + 1, j + 1); }
        ReachBack(d, c, j + 2);
        var x := Succ(c, j + 1);
        assert x.prev == item by { assert j + 2 < |c| ==> Pred(c, j + 2) == item; }
        OnAndBack(d, x);
      } else {
        assert forall t :: 0 <= t < j ==> c[t].next == Succ(c, t);
        Reach(d, c, j);
        OnAndBack(d, c[j]);
        assert c[j].next == item by { assert c[j] != prev ==> c[j].next == Succ(c, j); }
        OnAndBack(d, item);
      }
      assert false;
    }
  }

  lemma {:induction false} Others(c: seq<ListHead>, a: nat, b: nat)
    requires NoDup(c) && a < |c| && b < |c|
    ensures forall t :: 0 <= t < |c| && t != a && t != b ==> c[t] != c[a] && c[t] != c[b]
  {
  }

  /** INIT_LIST_HEAD. */
  method Init(list: ListHead)
    modifies list
    ensures List(list, [])
  {
    list.next := list;
    list.prev := list;
  }

  /** The links after item has been put between prev and next, wherever it was before. */
  ghost predicate Between(item: ListHead, prev: ListHead, next: ListHead)
    reads item, prev, next
  {
    && prev.next == item && item.prev == prev
    && item.next == (if prev == item then item else next)
    && next.prev == (if next == item then prev else item)
  }

  /** The other links of the circle c are as they were. */
  ghost predicate Unmoved(c: seq<ListHead>, item: ListHead, prev: ListHead, next: ListHead)
    reads c
  {
    && NoDup(c)
    && (forall t {:trigger Succ(c, t)} :: 0 <= t < |c| && c[t] != prev && c[t] != item ==> c[t].next == Succ(c, t))
    && (forall t {:trigger Pred(c, t)} :: 0 <= t < |c| && c[t] != next && c[t] != item ==> c[t].prev == Pred(c, t))
  }

  lemma {:induction false} StillLinked(n: Links, p: Links, c: seq<ListHead>, item: ListHead, prev: ListHead, next: ListHead)
    requires NoDup(c) && Forward(n, c) && Backward(p, c)
    requires Except(n, Nexts(c), c, {prev, item}) && Except(p, Prevs(c), c, {next, item})
    ensures Unmoved(c, item, prev, next)
  {
    hide NoDup;
    forall t {:trigger Succ(c, t)} | 0 <= t < |c| && c[t] != prev && c[t] != item ensures c[t].next == Succ(c, t) { At(n, c, t); }
    forall t {:trigger Pred(c, t)} | 0 <= t < |c| && c[t] != next && c[t] != item ensures c[t].prev == Pred(c, t) { AtBack(p, c, t); }
  }

  /** __list_add: item goes between two neighbours. */
  method AddBetween(item: ListHead, prev: ListHead, next: ListHead, ghost c: seq<ListHead>, ghost i: nat)
    requires Circle(c) && i < |c| && prev == c[i] && next == Succ(c, i)
    modifies item, prev`next, next`prev
    ensures item !in c ==> Circle(Longer(c, i, item))
    ensures Between(item, prev, next)
  {
    hide NoDup, Forward, Backward;
    ghost var c' := Longer(c, i, item);
    ghost var n, p := Nexts(c), Prevs(c);
    next.prev := item;
    item.next := next;
    item.prev := prev;
    prev.next := item;
    if item !in c {
      assert item in c' && prev in c' && next in c' && forall x :: x in c ==> x in c';
      LongerDistinct(c, i, item);
      LongerForward(n, Nexts(c'), c, i, item);
      LongerBackward(p, Prevs(c'), c, i, item);
    }
  }

  /** list_add_tail: item becomes the first entry. */
  method AddTail(item: ListHead?, head: ListHead, ghost s: seq<ListHead>)
    requires List(head, s) && (item != null ==> item !in [head] + s)
    modifies if item == null then {} else {item}, [head] + s
    ensures item != null ==> List(head, [item] + s)
    ensures item == null ==> List(head, s)
  {
    if item != null {
      hide Circle;
      ghost var c := [head] + s;
      Neighbours(c, 0);
      AddBetween(item, head, head.next, c, 0);
      assert Longer(c, 0, item) == [head] + ([item] + s);
    }
  }

  /** list_add_head: item becomes the last entry, if it is not in the list yet. */
  method AddHead(item: ListHead?, head: ListHead, ghost s: seq<ListHead>)
    requires List(head, s)
    modifies if item == null then {} else {item}, Last(head, s)`next, head`prev
    ensures item != null && item !in [head] + s ==> List(head, s + [item])
    ensures item != null ==> Between(item, Last(head, s), head)
    ensures item == null ==> List(head, s)
  {
    if item != null {
      hide Circle;
      ghost var c := [head] + s;
      Neighbours(c, 0);
      AddBetween(item, head.prev, head, c, |s|);
      assert Longer(c, |s|, item) == [head] + (s + [item]);
    }
  }

  /** list_del: entry leaves its list. */
  method Del(entry: ListHead, ghost head: ListHead, ghost s: seq<ListHead>, ghost i: nat)
    requires List(head, s) && i < |s| && entry == s[i]
    modifies [head] + s
    ensures List(head, s[..i] + s[i + 1..]) && entry.next == null && entry.prev == null
  {
    hide NoDup, Forward, Backward, Nexts, Prevs, Except;
    ghost var c := [head] + s;
    Neighbours(c, i + 1);
    Differ(c, i, i + 1);
    Differ(c, if i + 2 < |c| then i + 2 else 0, i + 1);
    ShorterDistinct(c, i + 1);
    ghost var n, p := Nexts(c), Prevs(c);
    Unlink(entry, c);
    ShorterForward(n, Nexts(c), c, i + 1);
    ShorterBackward(p, Prevs(c), c, i + 1);
    ghost var c' := Shorter(c, i + 1);
    assert c' == [head] + (s[..i] + s[i + 1..]);
    Subset(c, c');
  }

  /** The assignments of list_del. */
  method Unlink(entry: ListHead, ghost c: seq<ListHead>)
    requires entry in c && entry.prev in c && entry.next in c && entry.prev != entry && entry.next != entry
    modifies c
    ensures Except(old(Nexts(c)), Nexts(c), c, {entry, old(entry.prev)})
    ensures Except(old(Prevs(c)), Prevs(c), c, {entry, old(entry.next)})
    ensures old(entry.prev) in Nexts(c) && Nexts(c)[old(entry.prev)] == old(entry.next)
    ensures old(entry.next) in Prevs(c) && Prevs(c)[old(entry.next)] == old(entry.prev)
    ensures entry.next == null && entry.prev == null
  {
    var prev, next := entry.prev, entry.next;
    if next != null { next.prev := prev; }
    if prev != null { prev.next := next; }
    entry.next := null;
    entry.prev := null;
  }

  lemma {:induction false} Subset(c: seq<ListHead>, c': seq<ListHead>)
    requires Forward(Nexts(c), c') && Backward(Prevs(c), c')
    ensures Forward(Nexts(c'), c') && Backward(Prevs(c'), c')
  {
  }

  /** list_empty. */
  predicate Empty(head: ListHead)
    reads head
  {
    head.next == head || head.prev == head
  }

  /** list_empty_careful. */
  predicate EmptyCareful(head: ListHead)
    reads head
  {
    head.next == head && head.prev == head
  }

  /** Both tests recognise the empty list. */
  lemma {:induction false} EmptyIs(head: ListHead, s: seq<ListHead>)
    requires List(head, s)
    ensures Empty(head) <==> s == []
    ensures EmptyCareful(head) <==> s == []
  {
    Neighbours([head] + s, 0);
  }

  /** list_get_head and list_get_tail. */
  method GetHead(head: ListHead, ghost s: seq<ListHead>) returns (error: int, entry: ListHead?)
    requires List(head, s)
    ensures s == [] ==> error == -2 && entry == null
    ensures s != [] ==> error == 0 && entry == s[0]
  {
    Neighbours([head] + s, 0);
    if head.next != head { return 0, head.next; }
    return -2, null;
  }

  method GetTail(head: ListHead, ghost s: seq<ListHead>) returns (error: int, entry: ListHead?)
    requires List(head, s)
    ensures s == [] ==> error == -2 && entry == null
    ensures s != [] ==> error == 0 && entry == s[|s| - 1]
  {
    Neighbours([head] + s, 0);
    if head.prev != head { return 0, head.prev; }
    return -2, null;
  }

  /** list_get_head_del. */
  method GetHeadDel(head: ListHead, ghost s: seq<ListHead>) returns (error: int, entry: ListHead?)
    requires List(head, s)
    modifies [head] + s
    ensures s == [] ==> error == -2 && List(head, s)
    ensures s != [] ==> error == 0 && entry == s[0] && List(head, s[1..])
  {
    hide Circle;
    error, entry := GetHead(head, s);
    if error == 0 {
      if entry != null {
        Del(entry, head, s, 0);
        assert s[..0] + s[1..] == s[1..];
        return 0, entry;
      }
    }
    error := -2;
  }

  /** list_num: the walk of list_for_each_safe meets every entry once. */
  method Num(head: ListHead, ghost s: seq<ListHead>) returns (num: nat)
    requires List(head, s)
    ensures num == |s|
  {
    hide Circle;
    ghost var c := [head] + s;
    num := 0;
    Neighbours(c, 0);
    var pos := head.next;
    while pos != head
      invariant num <= |s| && pos == Succ(c, num) && Circle(c)
      decreases |s| - num
    {
      Neighbours(c, num + 1);
      pos := pos.next;
      num := num + 1;
    }
    AtHead(c, num);
  }

  lemma {:induction false} AtHead(c: seq<ListHead>, i: nat)
    requires Circle(c) && i < |c|
    ensures Succ(c, i) == c[0] ==> i + 1 == |c|
  {
  }
}
