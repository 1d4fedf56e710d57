/** Blocks of 2^order pages and when a set of them covers a stretch of memory exactly. */
module Blocks {
  import opened Words

  /** power of lib/math.c. */
  method Power(index: int) returns (sum: int)
    ensures sum == if index < 0 then 1 else Pow2(index)
  {
    sum := 1;
    if index == 0 { return 1; }
    if index > 0 {
      var n := index;
      while n > 0
        invariant 0 <= n <= index && sum == Pow2(index - n)
      {
        n := n - 1;
        sum := sum * 2;
      }
    }
  }

  datatype Block = Block(page: nat, order: nat)

  ghost function End(b: Block): (r: nat)
    ensures r > b.page
  {
    b.page + Pow2(b.order)
  }

  ghost predicate Apart(b: Block, c: Block) {
    End(b) <= c.page || End(c) <= b.page
  }

  ghost predicate Owned(all: set<Block>, x: nat) {
    exists b :: b in all && b.page <= x < End(b)
  }

  /** Every page from lo to hi belongs to exactly one block, and no other page to any. */
  ghost predicate Exact(all: set<Block>, lo: nat, hi: nat) {
    && (forall b :: b in all ==> lo <= b.page && End(b) <= hi)
    && (forall b, c :: b in all && c in all && b != c ==> Apart(b, c))
    && forall x :: lo <= x < hi ==> Owned(all, x)
  }

  ghost function Low(b: Block): Block
    requires b.order > 0
  {
    Block(b.page, b.order - 1)
  }

  ghost function High(b: Block): Block
    requires b.order > 0
  {
    Block(b.page + Pow2(b.order - 1), b.order - 1)
  }

  ghost function Split(all: set<Block>, b: Block): set<Block>
    requires b.order > 0
  {
    all - {b} + {Low(b), High(b)}
  }

  lemma {:induction false} Halves(b: Block)
    requires b.order > 0
    ensures Low(b).page == b.page && End(Low(b)) == High(b).page && End(High(b)) == End(b)
    ensures Low(b) != b && High(b) != b
  {
  }

  /** Two neighbouring blocks l and h against the one block b over the same pages. */
  ghost predicate Pair(b: Block, l: Block, h: Block) {
    l.page == b.page && End(l) == h.page && End(h) == End(b)
  }

  lemma {:induction false} SplitApart(all: set<Block>, lo: nat, hi: nat, b: Block, l: Block, h: Block)
    requires Exact(all, lo, hi) && b in all && Pair(b, l, h)
    ensures forall c :: c in all && c != b ==> Apart(l, c) && Apart(h, c)
    ensures Apart(l, h)
  {
    hide End, Owned;
    forall c | c in all && c != b ensures Apart(l, c) && Apart(h, c) { assert Apart(b, c); }
  }

  /** Splitting a block changes what covers its pages, and nothing else. */
  lemma {:induction false} SplitExact(all: set<Block>, lo: nat, hi: nat, b: Block)
    requires Exact(all, lo, hi) && b in all && b.order > 0
    ensures Low(b) !in all && High(b) !in all
    ensures Exact(Split(all, b), lo, hi)
  {
    Halves(b);
    var l, h, all' := Low(b), High(b), Split(all, b);
    SplitApart(all, lo, hi, b, l, h);
    hide End, Low, High, Owned;
    forall x | lo <= x < hi ensures Owned(all', x) { SplitOwned(all, all', b, l, h, x); }
  }

  lemma {:induction false} SplitOwned(all: set<Block>, all': set<Block>, b: Block, l: Block, h: Block, x: nat)
    requires Owned(all, x) && Pair(b, l, h) && all - {b} <= all' && l in all' && h in all'
    ensures Owned(all', x)
  {
    hide End;
    var c :| c in all && c.page <= x < End(c);
    if c == b {
      var d := if x < End(l) then l else h;
      assert d in all' && d.page <= x < End(d);
    }
  }

  lemma {:induction false} JoinApart(all: set<Block>, lo: nat, hi: nat, b: Block, l: Block, h: Block)
    requires Exact(all, lo, hi) && l in all && h in all && Pair(b, l, h) && b != l && b != h
    ensures b !in all
    ensures forall c :: c in all && c != l && c != h ==> Apart(b, c)
  {
    hide End, Owned;
    forall c | c in all && c != l && c != h ensures Apart(b, c) { assert Apart(l, c) && Apart(h, c); }
    assert !Apart(b, l);
  }

  /** The converse: two halves that lie side by side may be joined. */
  lemma {:induction false} JoinExact(all: set<Block>, lo: nat, hi: nat, b: Block)
    requires Exact(all, lo, hi) && b.order > 0 && Low(b) in all && High(b) in all
    ensures b !in all
    ensures Exact(all - {Low(b), High(b)} + {b}, lo, hi)
  {
    Halves(b);
    var l, h := Low(b), High(b);
    var all' := all - {l, h} + {b};
    JoinApart(all, lo, hi, b, l, h);
    hide End, Low, High, Owned;
    forall x | lo <= x < hi ensures Owned(all', x) { JoinOwned(all, all', b, l, h, x); }
  }

  lemma {:induction false} JoinOwned(all: set<Block>, all': set<Block>, b: Block, l: Block, h: Block, x: nat)
    requires Owned(all, x) && Pair(b, l, h) && all - {l, h} <= all' && b in all'
    ensures Owned(all', x)
  {
    hide End;
    var c :| c in all && c.page <= x < End(c);
    var d := if c == l || c == h then b else c;
    assert d in all' && d.page <= x < End(d);
  }
}
