/** When buddy_list_tidy keeps the pages shared out, for lists in any order. */
module BuddyTidy {
  import opened Words
  import opened Blocks
  import opened BuddyLists
  import opened BuddyPages

  /** The sum of the page numbers of a block. */
  ghost function PageSum(x: nat, k: nat): nat
    decreases k
  {
    if k == 0 then x else PageSum(x, k - 1) + PageSum(x + Pow2(k - 1), k - 1)
  }

  lemma {:induction false} Higher(x: nat, y: nat, k: nat)
    requires x < y
    ensures PageSum(x, k) < PageSum(y, k)
    decreases k
  {
    if k > 0 {
      Higher(x, y, k - 1);
      Higher(x + Pow2(k - 1), y + Pow2(k - 1), k - 1);
    }
  }

  ghost function ListSum(s: seq<nat>, k: nat): nat {
    if s == [] then 0 else PageSum(s[0], k) + ListSum(s[1..], k)
  }

  lemma {:induction false} ListSumTwo(a: seq<nat>, b: seq<nat>, k: nat)
    ensures ListSum(a + b, k) == ListSum(a, k) + ListSum(b, k)
  {
    if a == [] {
      assert a + b == b;
    } else {
      assert (a + b)[1..] == a[1..] + b;
      ListSumTwo(a[1..], b, k);
    }
  }

  lemma {:induction false} ListSumCut(s: seq<nat>, p: nat, k: nat)
    requires p + 1 < |s|
    ensures ListSum(s, k) == ListSum(s[..p] + s[p + 2..], k) + PageSum(s[p], k) + PageSum(s[p + 1], k)
  {
    var a, b := s[..p], s[p + 2..];
    assert s == a + s[p..];
    ListSumTwo(a, s[p..], k);
    ListSumTwo(a, b, k);
    assert s[p..][1..] == s[p + 1..] && s[p + 1..][1..] == b;
  }

  lemma {:induction false} ListSumOne(x: nat, k: nat)
    ensures ListSum([x], k) == PageSum(x, k)
  {
  }

  /** The sum of the page numbers of all blocks on the lists from k on. */
  ghost function Weight(q: seq<Queue>, k: nat): nat
    requires k <= |q|
    decreases |q| - k
  {
    if k == |q| then 0 else ListSum(q[k].list, k) + Weight(q, k + 1)
  }

  lemma {:induction false} WeightSame(q: seq<Queue>, q': seq<Queue>, k: nat)
    requires k <= |q| == |q'| && forall j :: k <= j < |q| ==> q'[j] == q[j]
    ensures Weight(q', k) == Weight(q, k)
    decreases |q| - k
  {
    if k < |q| { WeightSame(q, q', k + 1); }
  }

  lemma {:induction false} WeightTwo(q: seq<Queue>, q': seq<Queue>, i: nat, k: nat)
    requires k <= i && i + 1 < |q| == |q'| && forall j :: 0 <= j < |q| && j != i && j != i + 1 ==> q'[j] == q[j]
    ensures Weight(q', k) + ListSum(q[i].list, i) + ListSum(q[i + 1].list, i + 1) ==
            Weight(q, k) + ListSum(q'[i].list, i) + ListSum(q'[i + 1].list, i + 1)
    decreases i - k
  {
    hide ListSum;
    if k < i {
      WeightTwo(q, q', i, k + 1);
    } else {
      WeightSame(q, q', i + 2);
      assert Weight(q, i + 1) == ListSum(q[i + 1].list, i + 1) + Weight(q, i + 2);
      assert Weight(q', i + 1) == ListSum(q'[i + 1].list, i + 1) + Weight(q', i + 2);
    }
  }

  /** Joining a page with the next higher one keeps the sum; joining it with the next lower one raises it. */
  lemma {:induction false} JoinWeight(q: seq<Queue>, i: nat, p: nat)
    requires i + 1 < |q| && p + 1 < |q[i].list|
    ensures var s := q[i].list;
            && (s[p + 1] == s[p] + Pow2(i) ==> Weight(Joined(q, i, p), 0) == Weight(q, 0))
            && (s[p] == s[p + 1] + Pow2(i) ==> Weight(Joined(q, i, p), 0) > Weight(q, 0))
  {
    var s, r, q' := q[i].list, q[i + 1].list, Joined(q, i, p);
    WeightTwo(q, q', i, 0);
    ListSumCut(s, p, i);
    ListSumTwo(r, [s[p]], i + 1);
    ListSumOne(s[p], i + 1);
    assert PageSum(s[p], i + 1) == PageSum(s[p], i) + PageSum(s[p] + Pow2(i), i);
    if s[p] == s[p + 1] + Pow2(i) { Higher(s[p + 1], s[p] + Pow2(i), i); }
  }

  /** Every page on the lists is one of the RAM. */
  ghost predicate InRange(q: seq<Queue>, n: nat) {
    && |q| == NR_MEM_LISTS
    && forall k, x :: 0 <= k < |q| && x in q[k].list ==> FIRST_RAM <= x < n
  }

  lemma {:induction false} RangeBelow(q: seq<Queue>, n: nat, k: nat)
    requires InRange(q, n) && k < |q|
    ensures Below(q[k].list, n) && forall j :: 0 <= j < |q[k].list| ==> FIRST_RAM <= q[k].list[j] < n
  {
    forall j | 0 <= j < |q[k].list| ensures FIRST_RAM <= q[k].list[j] < n { assert q[k].list[j] in q[k].list; }
  }

  lemma {:induction false} JoinRange(q: seq<Queue>, n: nat, i: nat, p: nat)
    requires InRange(q, n) && i + 1 < |q| && p + 1 < |q[i].list|
    ensures InRange(Joined(q, i, p), n)
  {
    var s, q' := q[i].list, Joined(q, i, p);
    assert s[p] in s;
    forall k, x | 0 <= k < |q'| && x in q'[k].list ensures FIRST_RAM <= x < n {
      if k == i { assert x in s; }
    }
  }

  /** The walk over list i from pos on joins no page with a lower one. */
  ghost predicate Upward(pages: seq<Page>, q: seq<Queue>, i: nat, pos: nat)
    requires i + 1 < |q| && Below(q[i].list, |pages|) && Below(q[i + 1].list, |pages|)
    decreases |q[i].list| - pos
  {
    if pos >= |q[i].list| then
      true
    else if Meets(pages, q, i, pos) then
      q[i].list[pos] < q[i].list[pos + 1] && Upward(pages, Joined(q, i, pos), i, pos)
    else
      Upward(pages, q, i, pos + 1)
  }

  ghost predicate AllUpward(pages: seq<Page>, q: seq<Queue>, i: nat)
    requires i < |q| && forall k :: i <= k < |q| ==> Below(q[k].list, |pages|)
    decreases |q| - i
  {
    i + 1 == |q| || q[i].nrFree <= 0 || (Upward(pages, q, i, 0) && AllUpward(pages, Pass(pages, q, i, 0), i + 1))
  }

  lemma {:induction false} UpwardStep(pages: seq<Page>, q: seq<Queue>, i: nat, p: nat)
    requires i + 1 < |q| && Below(q[i].list, |pages|) && Below(q[i + 1].list, |pages|) && p < |q[i].list|
    ensures Meets(pages, q, i, p) ==>
              && Below(Joined(q, i, p)[i].list, |pages|) && Below(Joined(q, i, p)[i + 1].list, |pages|)
              && (Upward(pages, q, i, p) <==> q[i].list[p] < q[i].list[p + 1] && Upward(pages, Joined(q, i, p), i, p))
    ensures !Meets(pages, q, i, p) ==> Upward(pages, q, i, p) == Upward(pages, q, i, p + 1)
  {
    hide PageClosed;
  }

  lemma {:induction false} UpwardEnd(pages: seq<Page>, q: seq<Queue>, i: nat, p: nat)
    requires i + 1 < |q| && Below(q[i].list, |pages|) && Below(q[i + 1].list, |pages|) && p >= |q[i].list|
    ensures Upward(pages, q, i, p)
  {
  }

  lemma {:induction false} PassWeight(pages: seq<Page>, q: seq<Queue>, i: nat, p: nat)
    requires PagesOk(pages) && |pages| <= MAX_PAGES && InRange(q, |pages|) && i + 1 < |q|
    requires Below(q[i].list, |pages|) && Below(q[i + 1].list, |pages|)
    ensures var q' := Pass(pages, q, i, p);
            InRange(q', |pages|) && Weight(q', 0) >= Weight(q, 0) && (Weight(q', 0) == Weight(q, 0) <==> Upward(pages, q, i, p))
    decreases |q[i].list| - p
  {
    hide Weight, Pass, Upward, PageClosed, InRange, Pow2, Joined, PagesOk;
    if p >= |q[i].list| {
      PassEnd(pages, q, i, p);
      UpwardEnd(pages, q, i, p);
      return;
    }
    PassStep(pages, q, i, p);
    UpwardStep(pages, q, i, p);
    if Meets(pages, q, i, p) {
      JoinRange(q, |pages|, i, p);
      JoinWeight(q, i, p);
      MeetsIs(pages, q, i, p);
      JoinedAt(q, i, p);
      PassWeight(pages, Joined(q, i, p), i, p);
    } else {
      PassWeight(pages, q, i, p + 1);
    }
  }

  lemma {:induction false} MeetsIs(pages: seq<Page>, q: seq<Queue>, i: nat, p: nat)
    requires PagesOk(pages) && |pages| <= MAX_PAGES && InRange(q, |pages|) && i + 1 < |q|
    requires Below(q[i].list, |pages|) && p < |q[i].list| && Meets(pages, q, i, p)
    ensures var s := q[i].list; s[p + 1] == s[p] + Pow2(i) || s[p] == s[p + 1] + Pow2(i)
    ensures |Joined(q, i, p)| == |q|
  {
    hide Pow2, PageClosed;
    RangeBelow(q, |pages|, i);
    ClosedIs(q[i].list[p], q[i].list[p + 1], i);
  }

  lemma {:induction false} TidyWeight(pages: seq<Page>, q: seq<Queue>, i: nat)
    requires PagesOk(pages) && |pages| <= MAX_PAGES && InRange(q, |pages|) && i < |q|
    requires forall k :: i <= k < |q| ==> Below(q[k].list, |pages|)
    ensures var q' := Tidied(pages, q, i);
            |q'| == |q| && Weight(q', 0) >= Weight(q, 0) && (Weight(q', 0) == Weight(q, 0) <==> AllUpward(pages, q, i))
    decreases |q| - i
  {
    hide Weight, Pass, Upward, InRange;
    if i + 1 == |q| || q[i].nrFree <= 0 { return; }
    PassWeight(pages, q, i, 0);
    TidyWeight(pages, Pass(pages, q, i, 0), i + 1);
  }

  /** The free blocks are those on the lists, each on its list once, and share the memory with those handed out. */
  ghost predicate Sound(q: seq<Queue>, free: set<Block>, out: set<Block>, limit: nat) {
    Match(q, free) && (forall k :: 0 <= k < |q| ==> NoDup(q[k].list)) && Shared(free, out, limit)
  }

  /** The lists of a good state are such, and in address order besides. */
  lemma {:induction false} GoodSound(q: seq<Queue>, free: set<Block>, out: set<Block>, limit: nat, n: nat)
    requires Good(q, free, out, limit, n)
    ensures Sound(q, free, out, limit) && InRange(q, n)
  {
    hide Owned, Pow2;
    forall k, x | 0 <= k < |q| && x in q[k].list ensures FIRST_RAM <= x < n {
      assert Block(x, k) in free && Block(x, k) in free + out;
    }
  }

  /** A page that is joined with the next higher one. */
  lemma {:induction false} JoinSound(q: seq<Queue>, free: set<Block>, out: set<Block>, limit: nat, i: nat, p: nat)
    requires Sound(q, free, out, limit) && i + 1 < NR_MEM_LISTS && p + 1 < |q[i].list| && q[i].list[p + 1] == q[i].list[p] + Pow2(i)
    ensures var b := Block(q[i].list[p], i + 1);
            Sound(Joined(q, i, p), free - {Low(b), High(b)} + {b}, out, limit)
  {
    var s, r, b := q[i].list, q[i + 1].list, Block(q[i].list[p], i + 1);
    JoinHalves(q, free, i, p);
    NotJoined(free, out, limit, b);
    JoinShared(free, out, limit, b);
    hide Shared, Pow2, NoDup, Low, High;
    CutNoDup(s, p);
    OneMoreNoDup(r, b.page);
    JoinedMatch(q, free, i, p);
    assert forall k :: 0 <= k < |q| && k != i && k != i + 1 ==> Joined(q, i, p)[k] == q[k];
  }

  lemma {:induction false} JoinHalves(q: seq<Queue>, free: set<Block>, i: nat, p: nat)
    requires Match(q, free) && i + 1 < NR_MEM_LISTS && p + 1 < |q[i].list| && q[i].list[p + 1] == q[i].list[p] + Pow2(i)
    ensures var b := Block(q[i].list[p], i + 1);
            && Low(b) == Block(q[i].list[p], i) && High(b) == Block(q[i].list[p + 1], i) && Low(b) in free && High(b) in free
            && (b in free <==> b.page in q[i + 1].list)
  {
    hide Pow2;
    assert q[i].list[p] in q[i].list && q[i].list[p + 1] in q[i].list;
  }

  lemma {:induction false} JoinedMatch(q: seq<Queue>, free: set<Block>, i: nat, p: nat)
    requires Match(q, free) && i + 1 < NR_MEM_LISTS && p + 1 < |q[i].list| && NoDup(q[i].list)
    ensures var s := q[i].list;
            Match(Joined(q, i, p), free - {Block(s[p], i), Block(s[p + 1], i)} + {Block(s[p], i + 1)})
  {
    CutNoDup(q[i].list, p);
    hide NoDup;
  }

  lemma {:induction false} OneMoreNoDup(r: seq<nat>, x: nat)
    requires NoDup(r) && x !in r
    ensures NoDup(r + [x]) && forall y :: y in r + [x] <==> y in r || y == x
  {
  }

  lemma {:induction false} NotJoined(free: set<Block>, out: set<Block>, limit: nat, b: Block)
    requires Shared(free, out, limit) && b.order > 0 && Low(b) in free && High(b) in free
    ensures b !in free
  {
    JoinExact(free + out, FIRST_RAM, limit, b);
  }

  lemma {:induction false} PassSound(pages: seq<Page>, q: seq<Queue>, free: set<Block>, out: set<Block>, limit: nat, i: nat, p: nat)
    returns (free': set<Block>)
    requires PagesOk(pages) && |pages| <= MAX_PAGES && InRange(q, |pages|) && i + 1 < |q|
    requires Below(q[i].list, |pages|) && Below(q[i + 1].list, |pages|)
    requires Sound(q, free, out, limit) && Upward(pages, q, i, p)
    ensures Sound(Pass(pages, q, i, p), free', out, limit)
    decreases |q[i].list| - p
  {
    hide Sound, Pass, Upward, PageClosed, InRange, Pow2, Joined, PagesOk;
    assert |q| == NR_MEM_LISTS by { RangeSize(q, |pages|); }
    if p >= |q[i].list| {
      PassEnd(pages, q, i, p);
      free' := free;
      return;
    }
    PassStep(pages, q, i, p);
    UpwardStep(pages, q, i, p);
    if Meets(pages, q, i, p) {
      JoinRange(q, |pages|, i, p);
      MeetsIs(pages, q, i, p);
      JoinedAt(q, i, p);
      JoinSound(q, free, out, limit, i, p);
      var b := Block(q[i].list[p], i + 1);
      free' := PassSound(pages, Joined(q, i, p), free - {Low(b), High(b)} + {b}, out, limit, i, p);
    } else {
      free' := PassSound(pages, q, free, out, limit, i, p + 1);
    }
  }

  lemma {:induction false} RangeSize(q: seq<Queue>, n: nat)
    requires InRange(q, n)
    ensures |q| == NR_MEM_LISTS
  {
  }

  lemma {:induction false} TidySound(pages: seq<Page>, q: seq<Queue>, free: set<Block>, out: set<Block>, limit: nat, i: nat)
    returns (free': set<Block>)
    requires PagesOk(pages) && |pages| <= MAX_PAGES && InRange(q, |pages|) && i < |q|
    requires forall k :: i <= k < |q| ==> Below(q[k].list, |pages|)
    requires Sound(q, free, out, limit) && AllUpward(pages, q, i)
    ensures Sound(Tidied(pages, q, i), free', out, limit)
    decreases |q| - i
  {
    hide Sound, Pass, Upward, InRange;
    free' := free;
    if i + 1 == |q| || q[i].nrFree <= 0 { return; }
    PassWeight(pages, q, i, 0);
    free' := PassSound(pages, q, free, out, limit, i, 0);
    free' := TidySound(pages, Pass(pages, q, i, 0), free', out, limit, i + 1);
  }

  ghost function Total(lo: nat, hi: nat): nat
    decreases hi
  {
    if hi <= lo then 0 else Total(lo, hi - 1) + (hi - 1)
  }

  lemma {:induction false} TotalTwo(lo: nat, mid: nat, hi: nat)
    requires lo <= mid <= hi
    ensures Total(lo, hi) == Total(lo, mid) + Total(mid, hi)
    decreases hi
  {
    if mid < hi { TotalTwo(lo, mid, hi - 1); }
  }

  lemma {:induction false} TotalOne(x: nat)
    ensures Total(x, x + 1) == x
  {
  }

  lemma {:induction false} PageSumIs(x: nat, k: nat)
    ensures PageSum(x, k) == Total(x, x + Pow2(k))
    decreases k
  {
    TotalOne(x);
    hide Total;
    if k > 0 {
      PageSumIs(x, k - 1);
      PageSumIs(x + Pow2(k - 1), k - 1);
      TotalTwo(x, x + Pow2(k - 1), x + Pow2(k));
    }
  }

  ghost function SumOf(bs: seq<Block>): nat {
    if bs == [] then 0 else PageSum(bs[0].page, bs[0].order) + SumOf(bs[1..])
  }

  lemma {:induction false} SumOfTwo(a: seq<Block>, b: seq<Block>)
    ensures SumOf(a + b) == SumOf(a) + SumOf(b)
  {
    if a == [] {
      assert a + b == b;
    } else {
      assert (a + b)[1..] == a[1..] + b;
      SumOfTwo(a[1..], b);
    }
  }

  lemma {:induction false} SumOfCut(bs: seq<Block>, j: nat)
    requires j < |bs|
    ensures SumOf(bs) == SumOf(bs[..j] + bs[j + 1..]) + PageSum(bs[j].page, bs[j].order)
  {
    assert bs == bs[..j] + bs[j..];
    SumOfTwo(bs[..j], bs[j..]);
    SumOfTwo(bs[..j], bs[j + 1..]);
    assert bs[j..][1..] == bs[j + 1..];
  }

  ghost function Members(bs: seq<Block>): set<Block> {
    set b | b in bs
  }

  lemma {:induction false} CutMembers(bs: seq<Block>, j: nat)
    requires NoDup(bs) && j < |bs|
    ensures var bs' := bs[..j] + bs[j + 1..]; NoDup(bs') && Members(bs') == Members(bs) - {bs[j]}
  {
    var bs' := bs[..j] + bs[j + 1..];
    forall b ensures b in bs' <==> b in bs && b != bs[j] {
      if b in bs {
        var m :| 0 <= m < |bs| && bs[m] == b;
        assert m < j ==> bs'[m] == b;
        assert m > j ==> bs'[m - 1] == b;
      }
    }
  }

  lemma {:induction false} FirstMember(bs: seq<Block>)
    ensures bs != [] ==> bs[0] in Members(bs)
  {
  }

  /** Without the block that ends at hi the rest covers what is below it. */
  lemma {:induction false} TopBlock(all: set<Block>, lo: nat, hi: nat) returns (b: Block)
    requires Exact(all, lo, hi) && lo < hi
    ensures b in all && End(b) == hi && lo <= b.page && Exact(all - {b}, lo, b.page)
  {
    hide Pow2;
    assert Owned(all, hi - 1);
    b :| b in all && b.page <= hi - 1 < End(b);
    hide End;
    forall c | c in all - {b} ensures End(c) <= b.page { assert Apart(b, c); }
    forall x: nat | lo <= x < b.page ensures Owned(all - {b}, x) {
      assert Owned(all, x);
      var c :| c in all && c.page <= x < End(c);
      assert c in all - {b};
    }
  }

  /** Blocks that cover a stretch of memory exactly have its page numbers, in sum. */
  lemma {:induction false} CoverSum(bs: seq<Block>, lo: nat, hi: nat)
    requires NoDup(bs) && Exact(Members(bs), lo, hi)
    ensures SumOf(bs) == Total(lo, hi)
    decreases |bs|
  {
    if hi <= lo {
      assert forall b :: b in Members(bs) ==> lo <= b.page < End(b) <= hi;
      FirstMember(bs);
    } else {
      hide SumOf, Total, Exact, NoDup, End;
      var b := TopBlock(Members(bs), lo, hi);
      var j :| 0 <= j < |bs| && bs[j] == b;
      CutMembers(bs, j);
      SumOfCut(bs, j);
      CoverSum(bs[..j] + bs[j + 1..], lo, b.page);
      PageSumIs(b.page, b.order);
      assert End(b) == b.page + Pow2(b.order) by { EndIs(b); }
      TotalTwo(lo, b.page, hi);
    }
  }

  lemma {:induction false} EndIs(b: Block)
    ensures End(b) == b.page + Pow2(b.order)
  {
  }

  ghost function Tagged(s: seq<nat>, k: nat): (r: seq<Block>)
    ensures |r| == |s|
  {
    seq(|s|, j requires 0 <= j < |s| => Block(s[j], k))
  }

  lemma {:induction false} TaggedSum(s: seq<nat>, k: nat)
    ensures SumOf(Tagged(s, k)) == ListSum(s, k)
  {
    if s != [] {
      assert Tagged(s, k)[1..] == Tagged(s[1..], k);
      TaggedSum(s[1..], k);
    }
  }

  /** The blocks on the lists from k on. */
  ghost function Flat(q: seq<Queue>, k: nat): seq<Block>
    requires k <= |q|
    decreases |q| - k
  {
    if k == |q| then [] else Tagged(q[k].list, k) + Flat(q, k + 1)
  }

  lemma {:induction false} FlatSum(q: seq<Queue>, k: nat)
    requires k <= |q|
    ensures SumOf(Flat(q, k)) == Weight(q, k)
    decreases |q| - k
  {
    if k < |q| {
      FlatSum(q, k + 1);
      TaggedSum(q[k].list, k);
      SumOfTwo(Tagged(q[k].list, k), Flat(q, k + 1));
    }
  }

  lemma {:induction false} TaggedIn(s: seq<nat>, k: nat, b: Block)
    ensures b in Tagged(s, k) <==> b.order == k && b.page in s
  {
    if b.order == k && b.page in s {
      var j :| 0 <= j < |s| && s[j] == b.page;
      assert Tagged(s, k)[j] == b;
    }
  }

  lemma {:induction false} FlatIn(q: seq<Queue>, k: nat, b: Block)
    requires k <= |q|
    ensures b in Flat(q, k) <==> k <= b.order < |q| && b.page in q[b.order].list
    decreases |q| - k
  {
    hide Tagged;
    if k < |q| {
      FlatIn(q, k + 1, b);
      TaggedIn(q[k].list, k, b);
    }
  }

  lemma {:induction false} JoinNoDup(a: seq<Block>, b: seq<Block>)
    requires NoDup(a) && NoDup(b) && forall x :: x in a ==> x !in b
    ensures NoDup(a + b)
  {
    forall i, j | 0 <= i < j < |a + b| ensures (a + b)[i] != (a + b)[j] {
      if i < |a| <= j { assert a[i] in a && b[j - |a|] in b; }
    }
  }

  lemma {:induction false} FlatNoDup(q: seq<Queue>, k: nat)
    requires k <= |q| && forall j :: 0 <= j < |q| ==> NoDup(q[j].list)
    ensures NoDup(Flat(q, k))
    decreases |q| - k
  {
    if k < |q| {
      FlatNoDup(q, k + 1);
      var a, b := Tagged(q[k].list, k), Flat(q, k + 1);
      assert NoDup(a) by { assert NoDup(q[k].list); }
      forall x | x in a ensures x !in b {
        TaggedIn(q[k].list, k, x);
        FlatIn(q, k + 1, x);
      }
      JoinNoDup(a, b);
    }
  }

  lemma {:induction false} Listing(all: set<Block>) returns (bs: seq<Block>)
    ensures NoDup(bs) && Members(bs) == all
  {
    if all == {} {
      bs := [];
    } else {
      var b :| b in all;
      var rest := Listing(all - {b});
      assert forall c :: c in rest <==> c in Members(rest);
      bs := [b] + rest;
      assert forall c :: c in bs <==> c == b || c in rest;
    }
  }

  /** What the free blocks sum up to depends only on those that are handed out. */
  lemma {:induction false} SoundWeight(q: seq<Queue>, free: set<Block>, out: set<Block>, limit: nat, o: seq<Block>)
    requires Sound(q, free, out, limit) && NoDup(o) && Members(o) == out
    ensures Weight(q, 0) + SumOf(o) == Total(FIRST_RAM, limit)
  {
    var f := Flat(q, 0);
    hide Exact, Flat, Weight, SumOf, NoDup, Total;
    forall b ensures b in f <==> b in free { FlatIn(q, 0, b); }
    forall b ensures b in o <==> b in out { assert b in Members(o) <==> b in out; }
    FlatNoDup(q, 0);
    FlatSum(q, 0);
    JoinNoDup(f, o);
    SumOfTwo(f, o);
    assert Members(f + o) == free + out;
    CoverSum(f + o, FIRST_RAM, limit);
  }

  /** Tidying keeps the pages shared out exactly if it never joins a page with a lower one. */
  lemma {:induction false} TidyIff(pages: seq<Page>, q: seq<Queue>, free: set<Block>, out: set<Block>, limit: nat)
    requires PagesOk(pages) && |pages| <= MAX_PAGES && InRange(q, |pages|)
    requires Sound(q, free, out, limit) && forall k :: 0 <= k < |q| ==> Below(q[k].list, |pages|)
    ensures (exists free' :: Sound(Tidied(pages, q, 0), free', out, limit)) <==> AllUpward(pages, q, 0)
  {
    hide Sound, InRange, Tidied, AllUpward, Weight;
    assert |q| == NR_MEM_LISTS by { RangeSize(q, |pages|); }
    TidyWeight(pages, q, 0);
    if AllUpward(pages, q, 0) {
      var free' := TidySound(pages, q, free, out, limit, 0);
    }
    if free' :| Sound(Tidied(pages, q, 0), free', out, limit) {
      var o := Listing(out);
      SoundWeight(q, free, out, limit, o);
      SoundWeight(Tidied(pages, q, 0), free', out, limit, o);
    }
  }

  /** So it does on every good state of the allocator. */
  lemma {:induction false} TidyExact(pages: seq<Page>, q: seq<Queue>, free: set<Block>, out: set<Block>, limit: nat)
    requires PagesOk(pages) && |pages| <= MAX_PAGES && Good(q, free, out, limit, |pages|)
    requires forall k :: 0 <= k < |q| ==> Below(q[k].list, |pages|)
    ensures |q| == NR_MEM_LISTS
    ensures (exists free' :: Sound(Tidied(pages, q, 0), free', out, limit)) <==> AllUpward(pages, q, 0)
  {
    GoodSound(q, free, out, limit, |pages|);
    RangeSize(q, |pages|);
    hide Sound, Good, Tidied, AllUpward;
    TidyIff(pages, q, free, out, limit);
  }

  // How many pages there are, and how far tidying gets

  /** The pages on the lists from j up to i, in blocks of order j. */
  ghost function PagesFrom(q: seq<Queue>, j: nat, i: nat): nat
    requires i <= |q|
    decreases i - j
  {
    if j >= i then 0 else |q[j].list| + 2 * PagesFrom(q, j + 1, i)
  }

  /** The counters of the lists from j on are right. */
  ghost predicate CountedFrom(q: seq<Queue>, j: nat) {
    forall k :: j <= k < |q| ==> q[k].nrFree == |q[k].list|
  }

  /** A pass takes two pages off its list for each that it adds to the next. */
  lemma {:induction false} PassCount(pages: seq<Page>, q: seq<Queue>, i: nat, p: nat)
    requires i + 1 < |q| && Below(q[i].list, |pages|) && Below(q[i + 1].list, |pages|)
    ensures var r := Pass(pages, q, i, p);
            && |r[i].list| + 2 * |r[i + 1].list| == |q[i].list| + 2 * |q[i + 1].list| && |r[i + 1].list| >= |q[i + 1].list|
            && (CountedFrom(q, i) ==> CountedFrom(r, i))
    decreases |q[i].list| - p
  {
    hide Pass, PageClosed, Below;
    if p >= |q[i].list| {
      PassEnd(pages, q, i, p);
      return;
    }
    PassStep(pages, q, i, p);
    if Meets(pages, q, i, p) {
      JoinedAt(q, i, p);
      PassCount(pages, Joined(q, i, p), i, p);
    } else {
      PassCount(pages, q, i, p + 1);
    }
  }

  lemma {:induction false} PagesSame(q: seq<Queue>, r: seq<Queue>, j: nat, i: nat)
    requires i <= |q| == |r| && forall k :: j <= k < i ==> r[k] == q[k]
    ensures PagesFrom(r, j, i) == PagesFrom(q, j, i)
    decreases i - j
  {
    if j < i { PagesSame(q, r, j + 1, i); }
  }

  /** One pass, seen from the lists j and j + 1 on. */
  lemma {:induction false} PassPages(pages: seq<Page>, q: seq<Queue>, j: nat, i: nat)
    requires j + 1 < i <= |q| && Below(q[j].list, |pages|) && Below(q[j + 1].list, |pages|)
    ensures var r := Pass(pages, q, j, 0);
            PagesFrom(r, j, i) == PagesFrom(q, j, i) && 2 * PagesFrom(r, j + 1, i) <= PagesFrom(q, j, i)
  {
    hide Pass, Below;
    var r := Pass(pages, q, j, 0);
    PassCount(pages, q, j, 0);
    PagesSame(q, r, j + 2, i);
    assert PagesFrom(r, j + 1, i) == |r[j + 1].list| + 2 * PagesFrom(r, j + 2, i);
    assert PagesFrom(q, j + 1, i) == |q[j + 1].list| + 2 * PagesFrom(q, j + 2, i);
  }

  lemma {:induction false} LowerSame(q: seq<Queue>, r: seq<Queue>, j: nat, k: nat)
    requires k <= j <= |q| == |r| && (forall l :: 0 <= l < j ==> r[l] == q[l]) && PagesFrom(r, j, |r|) == PagesFrom(q, j, |q|)
    ensures PagesFrom(r, k, |r|) == PagesFrom(q, k, |q|)
    decreases j - k
  {
    if k < j { LowerSame(q, r, j, k + 1); }
  }

  /** Tidying keeps the number of pages, whatever is on the lists. */
  lemma {:induction false} TidyCount(pages: seq<Page>, q: seq<Queue>, j: nat)
    requires j < |q| && forall k :: j <= k < |q| ==> Below(q[k].list, |pages|)
    ensures |Tidied(pages, q, j)| == |q| && PagesFrom(Tidied(pages, q, j), 0, |q|) == PagesFrom(q, 0, |q|)
    decreases |q| - j
  {
    hide Pass, Below;
    if j + 1 == |q| || q[j].nrFree <= 0 { return; }
    var r := Pass(pages, q, j, 0);
    PassPages(pages, q, j, |q|);
    LowerSame(q, r, j, 0);
    TidyCount(pages, r, j + 1);
  }

  /** If list i is empty and the lists below it, from j on, have too few pages for a block of order i, tidying ends there:
      the lists above are not looked at. */
  lemma {:induction false} TidyStops(pages: seq<Page>, q: seq<Queue>, j: nat, i: nat)
    requires j <= i < |q| && CountedFrom(q, j) && forall k :: j <= k < |q| ==> Below(q[k].list, |pages|)
    requires q[i].list == [] && PagesFrom(q, j, i) < Pow2(i - j)
    ensures |Tidied(pages, q, j)| == |q| && forall k :: i <= k < |q| ==> Tidied(pages, q, j)[k] == q[k]
    decreases i - j
  {
    hide Pass, Below;
    if j + 1 == |q| || q[j].nrFree <= 0 { return; }
    var r := Pass(pages, q, j, 0);
    PassCount(pages, q, j, 0);
    if j + 1 < i { PassPages(pages, q, j, i); }
    assert j + 1 == i ==> PagesFrom(q, j, i) == |q[j].list| && PagesFrom(r, j + 1, i) == 0;
    TidyStops(pages, r, j + 1, i);
    assert forall k :: i < k < |q| ==> r[k] == q[k];
  }
}
