/** Lists of page blocks: when they hold the free blocks of memory, and what the operations of mm/page_alloc.c and
    mm/buddy.c make of them.  A page is named by its number. */
module BuddyPages {
  import opened Words
  import opened Blocks
  import opened BuddyLists

  const LOW_MEM_END := 0x100_0000
  const FIRST_RAM := 4096 // LOW_MEM_END in pages
  const MAX_PAGES := 0x10_0000 // the pages of a 32-bit address space

  const SYS_RESERVED: bv8 := 0x1
  const SYS_ROM: bv8 := 0x2
  const SYS_RAM: bv8 := 0x4

  ghost predicate Ascending(s: seq<nat>) {
    forall i, j :: 0 <= i < j < |s| ==> s[i] < s[j]
  }

  /** Every list is in address order and its counter is its length. */
  ghost predicate Lines(q: seq<Queue>) {
    && |q| == NR_MEM_LISTS
    && forall i :: 0 <= i < NR_MEM_LISTS ==> q[i].nrFree == |q[i].list| && Ascending(q[i].list)
  }

  /** The free blocks are those on the lists. */
  ghost predicate Match(q: seq<Queue>, free: set<Block>) {
    && |q| == NR_MEM_LISTS
    && forall b :: b in free <==> b.order < NR_MEM_LISTS && b.page in q[b.order].list
  }

  lemma {:induction false} TakeHead(q: seq<Queue>, free: set<Block>, i: nat)
    requires Lines(q) && Match(q, free) && i < NR_MEM_LISTS && q[i].list != []
    ensures Block(q[i].list[0], i) in free
    ensures var q' := q[i := Queue(q[i].list[1..], q[i].nrFree - 1)];
            Lines(q') && Match(q', free - {Block(q[i].list[0], i)})
  {
    var s, q' := q[i].list, q[i := Queue(q[i].list[1..], q[i].nrFree - 1)];
    assert forall x :: x in s <==> x == s[0] || x in s[1..];
    assert s[0] !in s[1..];
  }

  lemma {:induction false} AddTwo(q: seq<Queue>, free: set<Block>, i: nat, p: nat, r: nat)
    requires Lines(q) && Match(q, free) && i < NR_MEM_LISTS && q[i].list == [] && p < r
    ensures var q' := q[i := Queue([p, r], 2)]; Lines(q') && Match(q', free + {Block(p, i), Block(r, i)})
  {
  }

  /** The first order from which a block can be had. */
  ghost predicate FirstFrom(q: seq<Queue>, order: nat, i: nat) {
    && order <= i < NR_MEM_LISTS == |q|
    && q[i].list != []
    && forall k :: order <= k < i ==> q[k].list == []
  }

  /** The lists while the head p of list j is being halved, with order i reached. */
  ghost function Carved(q: seq<Queue>, i: nat, j: nat, p: nat): seq<Queue>
    requires i <= j < |q| && q[j].list != []
  {
    if i == j then
      q
    else
      seq(|q|, k requires 0 <= k < |q| =>
        if k == i then Queue([p, p + Pow2(k)], 2)
        else if i < k < j then Queue([p + Pow2(k)], 1)
        else if k == j then Queue(q[j].list[1..], q[j].nrFree - 1)
        else q[k])
  }

  /** The lists after the head p of list j has been taken for the given order: every order passed on the
      way keeps the upper half. */
  ghost function Taken(q: seq<Queue>, order: nat, j: nat, p: nat): seq<Queue>
    requires order <= j < |q| && q[j].list != []
  {
    seq(|q|, k requires 0 <= k < |q| =>
      if order <= k < j then Queue([p + Pow2(k)], 1)
      else if k == j then Queue(q[j].list[1..], q[j].nrFree - 1)
      else q[k])
  }

  lemma {:induction false} CarvedStart(q: seq<Queue>, order: nat, i: nat, j: nat, p: nat)
    requires Lines(q) && FirstFrom(q, order, j) && order <= i <= j && p == q[j].list[0]
    ensures Lines(Carved(q, i, j, p)) && FirstFrom(Carved(q, i, j, p), order, i) && Carved(q, i, j, p)[i].list[0] == p
    ensures i == j ==> Carved(q, i, j, p) == q
  {
  }

  /** One split moves on to the next lower order. */
  lemma {:induction false} CarvedStep(q: seq<Queue>, order: nat, i: nat, j: nat, p: nat)
    requires Lines(q) && FirstFrom(q, order, j) && order < i <= j && p == q[j].list[0]
    ensures var r := Carved(q, i, j, p);
            r[i := Queue(r[i].list[1..], r[i].nrFree - 1)][i - 1 := Queue([p, p + Pow2(i - 1)], 2)] == Carved(q, i - 1, j, p)
  {
  }

  lemma {:induction false} CarvedEnd(q: seq<Queue>, order: nat, j: nat, p: nat)
    requires Lines(q) && FirstFrom(q, order, j) && p == q[j].list[0]
    ensures var r := Carved(q, order, j, p);
            r[order := Queue(r[order].list[1..], r[order].nrFree - 1)] == Taken(q, order, j, p)
  {
  }

  lemma {:induction false} First(q: seq<Queue>, order: nat, i: nat)
    requires Lines(q) && FirstFrom(q, order, i)
    ensures q[i].nrFree > 0 && q[i].list != [] && order <= i && forall k :: order <= k < i ==> q[k].nrFree == 0 && q[k].list == []
  {
  }

  ghost function FirstPage(q: seq<Queue>, order: nat, j: nat): nat
    requires FirstFrom(q, order, j)
  {
    q[j].list[0]
  }

  /** The place of k in an ascending list. */
  ghost predicate PlaceOf(s: seq<nat>, k: nat, i: nat) {
    i <= |s| && (forall j :: 0 <= j < i ==> s[j] <= k) && (i < |s| ==> k < s[i])
  }

  ghost function Inserted(q: seq<Queue>, order: nat, k: nat, i: nat): seq<Queue>
    requires order < |q| && i <= |q[order].list|
  {
    var s := q[order].list;
    q[order := Queue(s[..i] + [k] + s[i..], q[order].nrFree + 1)]
  }

  lemma {:induction false} InsertLine(q: seq<Queue>, free: set<Block>, order: nat, k: nat, i: nat)
    requires Lines(q) && Match(q, free) && order < NR_MEM_LISTS && Block(k, order) !in free
    requires PlaceOf(q[order].list, k, i)
    ensures Lines(Inserted(q, order, k, i)) && Match(Inserted(q, order, k, i), free + {Block(k, order)})
  {
    var s := q[order].list;
    var s' := s[..i] + [k] + s[i..];
    assert k !in s;
    assert Ascending(s');
    assert forall x :: x in s' <==> x in s || x == k by { assert s == s[..i] + s[i..]; }
  }

  /** Free and handed-out blocks together cover the memory, none twice. */
  ghost predicate Shared(free: set<Block>, out: set<Block>, limit: nat) {
    free !! out && Exact(free + out, FIRST_RAM, limit)
  }

  lemma {:induction false} SharedSplit(free: set<Block>, out: set<Block>, limit: nat, b: Block, n: nat)
    requires Shared(free, out, limit) && b in free && b.order > 0 && forall c :: c in free ==> End(c) <= n
    ensures Shared(Split(free, b), out, limit) && forall c :: c in Split(free, b) ==> End(c) <= n
  {
    hide Exact;
    SplitExact(free + out, FIRST_RAM, limit, b);
    Halves(b);
    hide Low, High, End;
    assert Split(free, b) + out == Split(free + out, b);
  }

  lemma {:induction false} SharedTake(free: set<Block>, out: set<Block>, limit: nat, b: Block)
    requires Shared(free, out, limit) && b in free
    ensures b !in out && Shared(free - {b}, out + {b}, limit)
  {
    hide Exact;
    assert (free - {b}) + (out + {b}) == free + out;
  }

  lemma {:induction false} SharedGive(free: set<Block>, out: set<Block>, limit: nat, b: Block)
    requires Shared(free, out, limit) && b in out
    ensures b !in free && Shared(free + {b}, out - {b}, limit)
  {
    hide Exact;
    assert (free + {b}) + (out - {b}) == free + out;
  }

  lemma {:induction false} Counted(q: seq<Queue>, i: nat)
    requires Lines(q) && i < NR_MEM_LISTS
    ensures |q| == NR_MEM_LISTS && q[i].nrFree == |q[i].list|
  {
  }

  /** For pages of the RAM no wrap-around gets in the way. */
  lemma {:induction false} ClosedIs(a: nat, b: nat, order: nat)
    requires FIRST_RAM <= a < MAX_PAGES && FIRST_RAM <= b < MAX_PAGES && order < NR_MEM_LISTS
    ensures PageClosed(a * PAGE_SIZE, b * PAGE_SIZE, order) <==> b == a + Pow2(order) || a == b + Pow2(order)
  {
    PowSmall(order);
    hide Pow2;
  }

  lemma {:induction false} PowSmall(k: nat)
    requires k < NR_MEM_LISTS
    ensures Pow2(k) <= 512
  {
    assert Pow2(3) == 8 && Pow2(6) == 64;
  }

  /** The j-th block of the given order, counted from the start of the RAM. */
  ghost function Nth(order: nat, j: nat): (r: nat)
    ensures r == FIRST_RAM + j * Pow2(order)
  {
    if j == 0 then FIRST_RAM else Nth(order, j - 1) + Pow2(order)
  }

  /** The first c blocks of the given order. */
  ghost function Row(order: nat, c: nat): (r: seq<nat>)
    ensures |r| == c
  {
    seq(c, j requires 0 <= j < c => Nth(order, j))
  }

  ghost function Full(s: seq<nat>): Queue {
    Queue(s, |s|)
  }

  /** The lists while order i is being paired, t pairs done: what is left over below, the rest of the row of
      order i, and the row of joined blocks above. */
  ghost function Paired(n: nat, i: nat, t: nat): seq<Queue>
    requires 2 * t <= Shr(n, i)
  {
    seq(NR_MEM_LISTS, k requires 0 <= k < NR_MEM_LISTS =>
      if k < i then Full(Row(k, Shr(n, k))[2 * (Shr(n, k) / 2)..])
      else if k == i then Full(Row(i, Shr(n, i))[2 * t..])
      else if k == i + 1 then Full(Row(i + 1, t))
      else Full([]))
  }

  lemma {:induction false} PairedSize(n: nat, i: nat, t: nat)
    requires 2 * t <= Shr(n, i) && i < NR_MEM_LISTS
    ensures var q := Paired(n, i, t);
            && |q| == NR_MEM_LISTS && |q[i].list| == q[i].nrFree == Shr(n, i) - 2 * t
            && forall x :: x in q[i].list ==> FIRST_RAM <= x
  {
    hide Shr, Nth;
  }

  lemma {:induction false} NextOrder(n: nat, i: nat)
    ensures Paired(n, i, Shr(n, i) / 2) == Paired(n, i + 1, 0)
  {
    assert Row(i + 1, Shr(n, i + 1))[0..] == Row(i + 1, Shr(n, i + 1));
    assert Row(i + 2, 0) == [];
  }

  lemma {:induction false} NothingAbove(n: nat, i: nat, j: nat)
    requires Shr(n, i) == 0 && i <= j
    ensures Paired(n, i, 0) == Paired(n, j, 0)
  {
    forall k | i <= k <= j + 1 ensures Shr(n, k) == 0 && Row(k, 0) == [] { ShrZero(n, i, k); }
  }

  /** The binary decomposition of n pages: list k holds the bit of weight 2^k, the last list all that is left,
      and every block starts at a multiple of its size from the start of the RAM. */
  lemma {:induction false} Binary(n: nat, k: nat, x: nat)
    requires k < NR_MEM_LISTS
    ensures var s := Paired(n, NR_MEM_LISTS - 1, 0)[k].list;
            && |s| == (if k < NR_MEM_LISTS - 1 then Shr(n, k) % 2 else Shr(n, k))
            && (x in s ==> exists m :: x == Nth(k, m))
  {
    hide Nth, Shr;
    var s := Paired(n, NR_MEM_LISTS - 1, 0)[k].list;
    if x in s {
      var j :| 0 <= j < |s| && s[j] == x;
      var m := if k < NR_MEM_LISTS - 1 then j + 2 * (Shr(n, k) / 2) else j;
      assert x == Row(k, Shr(n, k))[m] == Nth(k, m);
    }
  }

  ghost predicate AllBelow(s: seq<nat>, p: nat) {
    forall x :: x in s ==> x < p
  }

  lemma {:induction false} PairStep(n: nat, i: nat, t: nat)
    requires i + 1 < NR_MEM_LISTS && 2 * t + 2 <= Shr(n, i)
    ensures var q := Paired(n, i, t);
            && q[i].list[1] == q[i].list[0] + Pow2(i)
            && AllBelow(q[i + 1].list, q[i].list[0])
            && Joined(q, i, 0) == Paired(n, i, t + 1)
  {
    hide Shr, Pow2;
    var q, q', c := Paired(n, i, t), Paired(n, i, t + 1), Shr(n, i);
    RowTail(i, c, t);
    RowBelow(i + 1, t);
    hide Nth, AllBelow, Row;
    assert Joined(q, i, 0)[i] == q'[i];
    var s := Row(i, c)[2 * t..];
    assert q[i] == Full(s) && q[i + 1] == Full(Row(i + 1, t));
    assert q'[i + 1] == Full(Row(i + 1, t + 1));
    assert Joined(q, i, 0)[i + 1] == Queue(Row(i + 1, t) + [s[0]], t + 1);
    assert forall k :: 0 <= k < NR_MEM_LISTS && k != i && k != i + 1 ==> q[k] == q'[k];
  }

  lemma {:induction false} RowTail(i: nat, c: nat, t: nat)
    requires 2 * t + 2 <= c
    ensures var s := Row(i, c)[2 * t..];
            && s[0] == Nth(i + 1, t) && s[1] == s[0] + Pow2(i)
            && s[..0] + s[2..] == Row(i, c)[2 * (t + 1)..]
            && Row(i + 1, t) + [s[0]] == Row(i + 1, t + 1)
  {
    hide Pow2;
    Twice(i, t);
    assert Nth(i, 2 * t + 1) == Nth(i, 2 * t) + Pow2(i);
    hide Nth;
  }

  lemma {:induction false} Twice(i: nat, t: nat)
    ensures Nth(i, 2 * t) == Nth(i + 1, t)
  {
    if t > 0 {
      Twice(i, t - 1);
      assert Nth(i, 2 * t) == Nth(i, 2 * t - 1) + Pow2(i) == Nth(i, 2 * t - 2) + Pow2(i) + Pow2(i);
    }
  }

  lemma {:induction false} Increasing(i: nat, j: nat, t: nat)
    requires j < t
    ensures Nth(i, j) < Nth(i, t)
  {
    if j + 1 < t { Increasing(i, j, t - 1); }
  }

  lemma {:induction false} RowBelow(i: nat, t: nat)
    ensures AllBelow(Row(i, t), Nth(i, t))
  {
    forall x | x in Row(i, t) ensures x < Nth(i, t) {
      var j :| 0 <= j < t && Row(i, t)[j] == x;
      Increasing(i, j, t);
    }
  }

  lemma {:induction false} AppendLine(r: seq<nat>, p: nat)
    requires Ascending(r) && AllBelow(r, p)
    ensures Ascending(r + [p]) && forall x :: x in r + [p] <==> x in r || x == p
  {
    assert forall k :: 0 <= k < |r| ==> r[k] in r;
  }

  lemma {:induction false} CutNoDup(s: seq<nat>, p: nat)
    requires NoDup(s) && p + 1 < |s|
    ensures NoDup(s[..p] + s[p + 2..])
    ensures forall x :: x in s[..p] + s[p + 2..] <==> x in s && x != s[p] && x != s[p + 1]
  {
    var s' := s[..p] + s[p + 2..];
    forall x ensures x in s' <==> x in s && x != s[p] && x != s[p + 1] {
      if x in s {
        var j :| 0 <= j < |s| && s[j] == x;
        assert j < p ==> s'[j] == x;
        assert j > p + 1 ==> s'[j - 2] == x;
      }
      if x in s' {
        var j :| 0 <= j < |s'| && s'[j] == x;
        assert x == s[if j < p then j else j + 2];
      }
    }
  }

  lemma {:induction false} CutTwo(s: seq<nat>, pos: nat)
    requires Ascending(s) && pos + 1 < |s|
    ensures Ascending(s[..pos] + s[pos + 2..])
    ensures forall x :: x in s[..pos] + s[pos + 2..] <==> x in s && x != s[pos] && x != s[pos + 1]
  {
    CutNoDup(s, pos);
  }

  lemma {:induction false} JoinMatch(q: seq<Queue>, free: set<Block>, i: nat, pos: nat, b: Block)
    requires Lines(q) && Match(q, free) && i + 1 < NR_MEM_LISTS && pos + 1 < |q[i].list|
    requires b == Block(q[i].list[pos], i + 1) && q[i].list[pos + 1] == High(b).page
    requires AllBelow(q[i + 1].list, b.page)
    ensures Low(b) in free && High(b) in free
    ensures Lines(Joined(q, i, pos)) && Match(Joined(q, i, pos), free - {Low(b), High(b)} + {b})
  {
    hide Pow2;
    var s, r := q[i].list, q[i + 1].list;
    CutTwo(s, pos);
    assert s[pos] in s && s[pos + 1] in s;
    AppendLine(r, b.page);
    hide Ascending, AllBelow;
  }

  lemma {:induction false} FirstExists(q: seq<Queue>, order: nat, i: nat) returns (j: nat)
    requires order <= i < NR_MEM_LISTS == |q| && q[i].list != []
    ensures FirstFrom(q, order, j)
  {
    if k :| order <= k < i && q[k].list != [] {
      j := FirstExists(q, order, k);
    } else {
      j := i;
    }
  }

  lemma {:induction false} JoinShared(free: set<Block>, out: set<Block>, limit: nat, b: Block)
    requires Shared(free, out, limit) && b.order > 0 && Low(b) in free && High(b) in free
    ensures Shared(free - {Low(b), High(b)} + {b}, out, limit)
  {
    hide Exact;
    JoinExact(free + out, FIRST_RAM, limit, b);
    var l, h := Low(b), High(b);
    hide Low, High;
    assert (free - {l, h} + {b}) + out == (free + out) - {l, h} + {b};
  }

  lemma {:induction false} SharedJoin(free: set<Block>, out: set<Block>, limit: nat, b: Block, n: nat)
    requires Shared(free, out, limit) && b.order > 0 && Low(b) in free && High(b) in free
    requires forall c :: c in free ==> End(c) <= n
    ensures var free' := free - {Low(b), High(b)} + {b};
            Shared(free', out, limit) && forall c :: c in free' ==> End(c) <= n
  {
    JoinShared(free, out, limit, b);
    Halves(b);
    hide Low, High, End;
  }

  /** Every page of the RAM as a block of its own. */
  ghost function Singles(k: nat, limit: nat): set<Block> {
    set x | k <= x < limit && FIRST_RAM <= x :: Block(x, 0)
  }

  lemma {:induction false} SinglesExact(limit: nat)
    ensures Exact(Singles(0, limit), FIRST_RAM, limit)
  {
    forall x: nat | FIRST_RAM <= x < limit ensures Owned(Singles(0, limit), x) {
      assert Block(x, 0) in Singles(0, limit) && End(Block(x, 0)) == x + 1;
    }
  }

  lemma {:induction false} NextSingle(k: nat, limit: nat)
    requires k < limit
    ensures FIRST_RAM <= k ==> Block(k, 0) in Singles(k, limit) && Singles(k + 1, limit) == Singles(k, limit) - {Block(k, 0)}
    ensures k < FIRST_RAM ==> Singles(k + 1, limit) == Singles(k, limit)
  {
  }

  lemma {:induction false} NoSingles(limit: nat)
    ensures Singles(limit, limit) == {}
  {
  }

  /** The pages of the RAM below k. */
  ghost function RamBelow(k: nat): nat {
    if k < FIRST_RAM then 0 else k - FIRST_RAM
  }

  /** Pages freed in ascending order join their list at its end. */
  lemma {:induction false} SeedStep(k: nat, i: nat)
    requires FIRST_RAM <= k && PlaceOf(Paired(k - FIRST_RAM, 0, 0)[0].list, k, i)
    ensures Inserted(Paired(k - FIRST_RAM, 0, 0), 0, k, i) == Paired(k + 1 - FIRST_RAM, 0, 0)
  {
    var n := k - FIRST_RAM;
    var s := Row(0, n);
    assert s[0..] == s && Row(0, n + 1)[0..] == Row(0, n + 1);
    RowBelow(0, n);
    assert Nth(0, n) == k;
    assert forall j :: 0 <= j < n ==> s[j] in s;
    assert s[..n] + [k] + s[n..] == Row(0, n + 1);
    assert Row(1, 0) == [];
    hide Row, Nth;
    assert Shr(n, 0) == n && Shr(n + 1, 0) == n + 1;
  }

  /** Every page record holds its address, the flags of reserved memory up to the RAM and the flag of the RAM from there
      on. */
  ghost predicate PagesOk(pages: seq<Page>) {
    forall k :: 0 <= k < |pages| ==>
      && pages[k].address == k * PAGE_SIZE && pages[k].flags == (if k < FIRST_RAM then 0x3 else 0x4)
      && (pages[k].flags & SYS_RAM != 0 <==> FIRST_RAM <= k)
  }

  /** The lists hold the free blocks in order, and these and the handed-out blocks share the memory. */
  ghost predicate Good(q: seq<Queue>, free: set<Block>, out: set<Block>, limit: nat, n: nat) {
    Lines(q) && Match(q, free) && Shared(free, out, limit) && forall b :: b in free ==> End(b) <= n
  }

  lemma {:induction false} Beyond(q: seq<Queue>, free: set<Block>, out: set<Block>, limit: nat, k: nat)
    requires Good(q, free, out, limit, k)
    ensures |q| == NR_MEM_LISTS && forall i :: 0 <= i < |q| ==> k !in q[i].list
    ensures forall n :: n >= k ==> Good(q, free, out, limit, n)
  {
    hide Shared;
    forall i | 0 <= i < |q| ensures k !in q[i].list {
      var b := Block(k, i);
      assert b in free ==> End(b) <= k;
    }
  }

  /** A page in a free block is on no other list. */
  lemma {:induction false} Alone(q: seq<Queue>, free: set<Block>, out: set<Block>, limit: nat, b: Block, x: nat)
    requires Match(q, free - {b}) && Shared(free, out, limit) && b in free && b.page <= x < End(b)
    ensures forall i :: 0 <= i < NR_MEM_LISTS ==> x !in q[i].list
  {
    hide Owned, Pow2;
    forall i | 0 <= i < NR_MEM_LISTS ensures x !in q[i].list {
      var c := Block(x, i);
      assert c in free - {b} ==> Apart(b, c);
    }
  }

  /** A page that is on no list belongs to a handed-out block, and freeing it as another one gives it away twice. */
  lemma {:induction false} FreeTwice(free: set<Block>, out: set<Block>, limit: nat, b: Block)
    requires Shared(free, out, limit) && FIRST_RAM <= b.page < limit && b !in free && b !in out
    ensures !Shared(free + {b}, out - {b}, limit)
  {
    var all := free + out;
    assert Owned(all, b.page);
    var c :| c in all && c.page <= b.page < End(c);
    var all' := (free + {b}) + (out - {b});
    assert c in all' && b in all' && !Apart(b, c);
  }

  lemma {:induction false} AddressPlace(pages: seq<Page>, s: seq<nat>, k: nat, i: nat)
    requires PagesOk(pages) && FirstLarger(pages, s, k, i)
    ensures PlaceOf(s, k, i)
  {
  }

  /** Larger blocks lie below smaller ones. */
  ghost predicate Stacked(q: seq<Queue>, i: nat) {
    forall j, k, x, y :: i <= j < k < |q| && x in q[j].list && y in q[k].list ==> y < x
  }

  /** The pairing walk keeps the lists good as long as the next list lies below what is still to be met. */
  lemma {:induction false} PassKeeps(pages: seq<Page>, q: seq<Queue>, free: set<Block>, out: set<Block>, limit: nat, i: nat, p: nat)
    returns (free': set<Block>)
    requires PagesOk(pages) && |pages| <= MAX_PAGES && Good(q, free, out, limit, |pages|) && i + 1 < NR_MEM_LISTS
    requires Below(q[i].list, |pages|) && Below(q[i + 1].list, |pages|)
    requires forall j :: p <= j < |q[i].list| ==> AllBelow(q[i + 1].list, q[i].list[j])
    ensures Good(Pass(pages, q, i, p), free', out, limit, |pages|)
    ensures forall x :: x in Pass(pages, q, i, p)[i + 1].list ==> x in q[i].list || x in q[i + 1].list
    decreases |q[i].list| - p
  {
    hide Shared, Match, End, Pow2, PageClosed, Pass;
    var s := q[i].list;
    if p >= |s| {
      PassEnd(pages, q, i, p);
      free' := free;
      return;
    }
    PassStep(pages, q, i, p);
    if !Meets(pages, q, i, p) {
      free' := PassKeeps(pages, q, free, out, limit, i, p + 1);
      return;
    }
    var b := Block(s[p], i + 1);
    InRam(q, free, out, limit, i);
    ClosedIs(s[p], s[p + 1], i);
    JoinMatch(q, free, i, p, b);
    SharedJoin(free, out, limit, b, |pages|);
    var q' := Joined(q, i, p);
    JoinedRest(q, i, p);
    hide Lines, AllBelow;
    free' := PassKeeps(pages, q', free - {Low(b), High(b)} + {b}, out, limit, i, p);
  }

  lemma {:induction false} JoinedRest(q: seq<Queue>, i: nat, p: nat)
    requires Lines(q) && i + 1 < NR_MEM_LISTS && p + 1 < |q[i].list|
    requires forall j :: p <= j < |q[i].list| ==> AllBelow(q[i + 1].list, q[i].list[j])
    ensures var q' := Joined(q, i, p);
            && (forall j :: p <= j < |q'[i].list| ==> AllBelow(q'[i + 1].list, q'[i].list[j]))
            && (forall x :: x in q'[i].list || x in q'[i + 1].list ==> x in q[i].list || x in q[i + 1].list)
  {
    var q', s := Joined(q, i, p), q[i].list;
    forall j | p <= j < |q'[i].list| ensures AllBelow(q'[i + 1].list, q'[i].list[j]) {
      assert q'[i].list[j] == s[j + 2];
    }
  }

  lemma {:induction false} InRam(q: seq<Queue>, free: set<Block>, out: set<Block>, limit: nat, i: nat)
    requires Match(q, free) && Shared(free, out, limit) && i < NR_MEM_LISTS
    ensures forall j :: 0 <= j < |q[i].list| ==> FIRST_RAM <= q[i].list[j]
  {
    hide Owned, Pow2;
    var s := q[i].list;
    forall j | 0 <= j < |s| ensures FIRST_RAM <= s[j] {
      assert s[j] in s;
      assert Block(s[j], i) in free + out;
    }
  }

  /** Tidying loses no page and gives none away twice, if the larger blocks lie below the smaller ones. */
  lemma {:induction false} TidyKeeps(pages: seq<Page>, q: seq<Queue>, free: set<Block>, out: set<Block>, limit: nat, i: nat)
    returns (free': set<Block>)
    requires PagesOk(pages) && |pages| <= MAX_PAGES && Good(q, free, out, limit, |pages|) && i < NR_MEM_LISTS
    requires Stacked(q, i) && forall k :: i <= k < NR_MEM_LISTS ==> Below(q[k].list, |pages|)
    ensures Good(Tidied(pages, q, i), free', out, limit, |pages|)
    decreases NR_MEM_LISTS - i
  {
    hide Good, Pass;
    assert |q| == NR_MEM_LISTS by { Sized(q, free, out, limit, |pages|); }
    free' := free;
    if i + 1 == |q| || q[i].nrFree <= 0 { return; }
    assert forall j :: 0 <= j < |q[i].list| ==> q[i].list[j] in q[i].list;
    free' := PassKeeps(pages, q, free, out, limit, i, 0);
    StackedPass(q, Pass(pages, q, i, 0), i);
    free' := TidyKeeps(pages, Pass(pages, q, i, 0), free', out, limit, i + 1);
  }

  lemma {:induction false} StackedPass(q: seq<Queue>, q': seq<Queue>, i: nat)
    requires Stacked(q, i) && |q'| == |q| && i + 1 < |q| && forall k :: i + 1 < k < |q| ==> q'[k] == q[k]
    requires forall x :: x in q'[i + 1].list ==> x in q[i].list || x in q[i + 1].list
    ensures Stacked(q', i + 1)
  {
    forall j, k, x, y | i + 1 <= j < k < |q'| && x in q'[j].list && y in q'[k].list ensures y < x {
      assert q'[k] == q[k] && y in q[k].list;
      assert x in q[j].list || x in q[i].list;
    }
  }

  lemma {:induction false} Sized(q: seq<Queue>, free: set<Block>, out: set<Block>, limit: nat, n: nat)
    requires Good(q, free, out, limit, n)
    ensures |q| == NR_MEM_LISTS && Lines(q)
  {
  }

  /** On the freshly seeded lists the walk meets a pair at every step. */
  lemma {:induction false} PairedPass(pages: seq<Page>, n: nat, i: nat, t: nat)
    requires PagesOk(pages) && |pages| <= MAX_PAGES && i + 1 < NR_MEM_LISTS && 2 * t <= Shr(n, i)
    requires var q := Paired(n, i, t); Below(q[i].list, |pages|) && Below(q[i + 1].list, |pages|)
    ensures Pass(pages, Paired(n, i, t), i, 0) == Paired(n, i + 1, 0)
    decreases Shr(n, i) - 2 * t
  {
    hide Shr, Paired, Pass, PageClosed, Pow2;
    var q := Paired(n, i, t);
    PairedSize(n, i, t);
    var s := q[i].list;
    if s == [] {
      PassEnd(pages, q, i, 0);
      NextOrder(n, i);
      return;
    }
    PassStep(pages, q, i, 0);
    if |s| == 1 {
      PassEnd(pages, q, i, 1);
      NextOrder(n, i);
      return;
    }
    assert s[0] in s && s[1] in s;
    ClosedIs(s[0], s[1], i);
    PairStep(n, i, t);
    PairedPass(pages, n, i, t + 1);
  }

  lemma {:induction false} PairedTidied(pages: seq<Page>, n: nat, i: nat)
    requires PagesOk(pages) && |pages| <= MAX_PAGES && i < NR_MEM_LISTS
    requires forall k :: i <= k < NR_MEM_LISTS ==> Below(Paired(n, i, 0)[k].list, |pages|)
    ensures Tidied(pages, Paired(n, i, 0), i) == Paired(n, NR_MEM_LISTS - 1, 0)
    decreases NR_MEM_LISTS - i
  {
    hide Shr, Paired, Pass;
    PairedSize(n, i, 0);
    if i + 1 == NR_MEM_LISTS { return; }
    if Paired(n, i, 0)[i].nrFree <= 0 {
      NothingAbove(n, i, NR_MEM_LISTS - 1);
    } else {
      PairedPass(pages, n, i, 0);
      PairedTidied(pages, n, i + 1);
    }
  }

  lemma {:induction false} SeededStacked(n: nat)
    ensures Stacked(Paired(n, 0, 0), 0)
  {
    var q := Paired(n, 0, 0);
    forall k | 1 <= k < NR_MEM_LISTS ensures q[k].list == [] {
      assert q[k] == if k == 1 then Full(Row(1, 0)) else Full([]);
      assert Row(1, 0) == [];
    }
  }

  ghost function Filled(a: seq<nat>, b: seq<nat>, c: seq<nat>): (q: seq<Queue>)
    ensures |q| == NR_MEM_LISTS && q[0] == Full(a) && q[1] == Full(b) && q[2] == Full(c)
    ensures forall k :: 3 <= k < NR_MEM_LISTS ==> q[k] == Full([])
  {
    [Full(a), Full(b), Full(c)] + seq(NR_MEM_LISTS - 3, _ => Full([]))
  }

  /** Two pages below a free pair: tidying joins the pages, then the two pairs, and files the result under the higher
      one.  The block of four so made reaches into the pair that is handed out. */
  lemma {:induction false} TidyOverlaps(pages: seq<Page>, other: set<Block>)
    requires PagesOk(pages) && |pages| == FIRST_RAM + 6
    ensures var p, q := FIRST_RAM, Filled([FIRST_RAM, FIRST_RAM + 1], [FIRST_RAM + 2], []);
            && Good(q, {Block(p, 0), Block(p + 1, 0), Block(p + 2, 1)}, {Block(p + 4, 1)}, p + 6, |pages|)
            && (forall k :: 0 <= k < |q| ==> Below(q[k].list, |pages|))
            && Tidied(pages, q, 0) == Filled([], [], [p + 2])
            && !Good(Tidied(pages, q, 0), other, {Block(p + 4, 1)}, p + 6, |pages|)
  {
    var p := FIRST_RAM;
    MixedGood(|pages|);
    MixedTidied(pages);
    hide Tidied, Filled;
    var b, c := Block(p + 2, 2), Block(p + 4, 1);
    if Match(Filled([], [], [p + 2]), other) {
      assert b in other;
      assert Pow2(1) == 2 && Pow2(2) == 4;
      assert !Apart(b, c);
    }
  }

  lemma {:induction false} MixedGood(n: nat)
    requires n == FIRST_RAM + 6
    ensures var p := FIRST_RAM;
            Good(Filled([p, p + 1], [p + 2], []), {Block(p, 0), Block(p + 1, 0), Block(p + 2, 1)}, {Block(p + 4, 1)}, p + 6, n)
  {
    var p := FIRST_RAM;
    var a, b, c, d := Block(p, 0), Block(p + 1, 0), Block(p + 2, 1), Block(p + 4, 1);
    assert End(a) == p + 1 && End(b) == p + 2 && End(c) == p + 4 && End(d) == p + 6;
    hide End;
    var all := {a, b, c} + {d};
    forall x: nat | p <= x < p + 6 ensures Owned(all, x) {
      var e := if x == p then a else if x == p + 1 then b else if x < p + 4 then c else d;
      assert e in all && e.page <= x < End(e);
    }
  }

  lemma {:induction false} JoinPair(q: seq<Queue>, i: nat)
    requires i + 1 < |q| && |q[i].list| == q[i].nrFree == 2 && q[i + 1].nrFree == |q[i + 1].list|
    ensures Joined(q, i, 0) == q[i := Full([])][i + 1 := Full(q[i + 1].list + [q[i].list[0]])]
  {
    var s := q[i].list;
    assert s[..0] + s[2..] == [];
  }

  lemma {:induction false} MixedJoins(p: nat)
    ensures Joined(Filled([p, p + 1], [p + 2], []), 0, 0) == Filled([], [p + 2, p], [])
    ensures Joined(Filled([], [p + 2, p], []), 1, 0) == Filled([], [], [p + 2])
  {
    hide Filled;
    JoinPair(Filled([p, p + 1], [p + 2], []), 0);
    JoinPair(Filled([], [p + 2, p], []), 1);
    assert [p + 2] + [p] == [p + 2, p] && [] + [p + 2] == [p + 2];
  }

  /** A walk over a list of two neighbours, and over one of a single page. */
  lemma {:induction false} PassTwo(pages: seq<Page>, q: seq<Queue>, i: nat)
    requires i + 1 < NR_MEM_LISTS == |q| && Below(q[i].list, |pages|) && Below(q[i + 1].list, |pages|)
    ensures |q[i].list| == 2 && Meets(pages, q, i, 0) ==> Pass(pages, q, i, 0) == Joined(q, i, 0)
    ensures |q[i].list| == 1 ==> Pass(pages, q, i, 0) == q
  {
    hide Pass, PageClosed;
    if q[i].list == [] { return; }
    PassStep(pages, q, i, 0);
    if |q[i].list| == 1 { PassEnd(pages, q, i, 1); }
    if |q[i].list| == 2 && Meets(pages, q, i, 0) {
      JoinedAt(q, i, 0);
      PassEnd(pages, Joined(q, i, 0), i, 0);
    }
  }

  lemma {:induction false} MixedTidied(pages: seq<Page>)
    requires PagesOk(pages) && |pages| == FIRST_RAM + 6
    ensures var q := Filled([FIRST_RAM, FIRST_RAM + 1], [FIRST_RAM + 2], []);
            && (forall k :: 0 <= k < |q| ==> Below(q[k].list, |pages|))
            && Tidied(pages, q, 0) == Filled([], [], [FIRST_RAM + 2])
  {
    var p := FIRST_RAM;
    ClosedIs(p, p + 1, 0);
    ClosedIs(p + 2, p, 1);
    assert Pow2(0) == 1 && Pow2(1) == 2;
    MixedJoins(p);
    var q0, q1, q2 := Filled([p, p + 1], [p + 2], []), Filled([], [p + 2, p], []), Filled([], [], [p + 2]);
    hide Pass, PageClosed, Joined, Filled, Pow2;
    PassTwo(pages, q0, 0);
    PassTwo(pages, q1, 1);
    PassTwo(pages, q2, 2);
    assert Tidied(pages, q2, 3) == q2;
    assert Tidied(pages, q2, 2) == q2;
    assert Tidied(pages, q1, 1) == q2;
  }

  lemma {:induction false} SplitGood(q: seq<Queue>, free: set<Block>, out: set<Block>, limit: nat, n: nat, i: nat)
    requires Good(q, free, out, limit, n) && 0 < i < NR_MEM_LISTS == |q| && q[i].list != [] && q[i - 1].list == []
    ensures q[i - 1] == Queue([], 0)
    ensures var p, d, q' := q[i].list[0], Pow2(i - 1), q[i := Queue(q[i].list[1..], q[i].nrFree - 1)];
            && p + d < n && (forall k :: 0 <= k < NR_MEM_LISTS ==> p !in q'[k].list && p + d !in q'[k].list)
            && Good(q'[i - 1 := Queue([p, p + d], 2)], Split(free, Block(p, i)), out, limit, n)
  {
    Counted(q, i - 1);
    hide Shared, Match, Lines, End, Pow2;
    var b, q' := Block(q[i].list[0], i), q[i := Queue(q[i].list[1..], q[i].nrFree - 1)];
    TakeHead(q, free, i);
    SharedSplit(free, out, limit, b, n);
    AddTwo(q', free - {b}, i - 1, b.page, b.page + Pow2(i - 1));
    Halves(b);
    Alone(q', free, out, limit, b, b.page);
    Alone(q', free, out, limit, b, b.page + Pow2(i - 1));
  }

  lemma {:induction false} NotFree(q: seq<Queue>, free: set<Block>, b: Block)
    requires Match(q, free) && forall i :: 0 <= i < |q| ==> b.page !in q[i].list
    ensures b !in free
  {
  }

  /** A page on a list does not start a block that is handed out. */
  lemma {:induction false} Listed(q: seq<Queue>, free: set<Block>, out: set<Block>, limit: nat, b: Block)
    requires Match(q, free) && Shared(free, out, limit) && exists i :: 0 <= i < |q| && b.page in q[i].list
    ensures b !in out
  {
    hide Owned, Pow2;
    var i :| 0 <= i < |q| && b.page in q[i].list;
    var c := Block(b.page, i);
    assert c in free;
    assert b in out ==> Apart(b, c) || b == c;
  }

  /** Before the first page is freed all of them count as handed out. */
  lemma {:induction false} Unseeded(limit: nat)
    ensures var q := seq(NR_MEM_LISTS, _ => Queue([], 0));
            q == Paired(0, 0, 0) && Good(q, {}, Singles(0, limit), limit, 0) && PagesOk([])
  {
    assert Row(0, 0)[0..] == [] && Row(1, 0) == [];
    SinglesExact(limit);
    hide Exact;
    assert {} + Singles(0, limit) == Singles(0, limit);
  }

  lemma {:induction false} Known(q: seq<Queue>, free: set<Block>, n: nat, order: nat)
    requires Match(q, free) && order < NR_MEM_LISTS && forall b :: b in free ==> End(b) <= n
    ensures forall x :: x in q[order].list ==> x < n
  {
    forall x | x in q[order].list ensures x < n { assert Block(x, order) in free; }
  }
}
