/** The page allocator of mm/page_alloc.c and mm/buddy.c on the rings of BuddyLists. */
module Buddy {
  import opened Words
  import opened Blocks
  import opened BuddyLists
  import opened BuddyPages
  import opened BuddyTidy

  class Allocator {
    const store: Lists
    ghost var free: set<Block>
    ghost var out: set<Block>
    ghost var limit: nat

    /** init_mem. */
    constructor (pageFns: nat)
      requires pageFns <= MAX_PAGES
      ensures Valid() && limit == |store.pages| == pageFns && out == {}
      ensures store.queue == Paired(RamBelow(pageFns), NR_MEM_LISTS - 1, 0)
    {
      store := new Lists();
      free, out, limit := {}, Singles(0, pageFns), pageFns;
      new;
      hide Good, Paired, Lists.Valid, PagesOk, Singles;
      Unseeded(pageFns);
      Seed(pageFns);
      TidySeeds();
    }

    /** The end of init_mem. */
    method TidySeeds()
      requires Valid() && |store.pages| == limit && store.queue == Paired(RamBelow(limit), 0, 0)
      modifies store`nr, store`queue, store.heads, store.nodes, this`free
      ensures Valid() && store.queue == Paired(RamBelow(limit), NR_MEM_LISTS - 1, 0)
    {
      hide Good, Paired, Lists.Valid, PagesOk, Sound, AllUpward, Stacked, Tidied;
      store.Sizes();
      SeededStacked(RamBelow(limit));
      PairedTidied(store.pages, RamBelow(limit), 0);
      Tidy();
    }

    /** Frees the pages of the RAM one by one. */
    method Seed(pageFns: nat)
      requires Valid() && store.pages == [] && pageFns == limit <= MAX_PAGES
      requires out == Singles(0, limit) && store.queue == Paired(0, 0, 0)
      modifies store, store.heads, this`free, this`out
      ensures Valid() && |store.pages| == limit && fresh(store.nodes)
      ensures out == {} && store.queue == Paired(RamBelow(limit), 0, 0)
    {
      hide Good, Paired, Lists.Valid, PagesOk, Singles;
      store.Sizes();
      for k := 0 to pageFns
        invariant Valid() && |store.pages| == k && fresh(store.nodes)
        invariant out == Singles(k, limit) && store.queue == Paired(RamBelow(k), 0, 0)
      {
        store.Sizes();
        SeedPage(k);
        store.Sizes();
        assert store.nodes == store.nodes[..k] + store.nodes[k..];
      }
      NoSingles(limit);
    }

    /** One round of the loop of init_mem. */
    method SeedPage(k: nat)
      requires Valid() && |store.pages| == k < limit <= MAX_PAGES
      requires out == Singles(k, limit) && store.queue == Paired(RamBelow(k), 0, 0)
      modifies store, store.heads, store.nodes, this`free, this`out
      ensures Valid() && |store.pages| == k + 1 && fresh(store.nodes[k..]) && store.nodes[..k] == old(store.nodes)
      ensures out == Singles(k + 1, limit) && store.queue == Paired(RamBelow(k + 1), 0, 0)
    {
      hide Good, Paired, PlaceOf, Inserted, Singles, Lists.Valid;
      store.Sizes();
      Beyond(store.queue, free, out, limit, k);
      var address := k * PAGE_SIZE;
      var flags: bv8 := 0;
      if address < LOW_MEM_END {
        flags := flags | (SYS_RESERVED | SYS_ROM);
      } else {
        flags := flags | SYS_RAM;
      }
      store.AddPage(Page(flags, address));
      NextSingle(k, limit);
      var error, i := FreePages(PageAt(k), 0);
      if FIRST_RAM <= k { SeedStep(k, i); }
    }

    ghost predicate Valid()
      reads this, store, store.heads, store.nodes
    {
      && store.Valid()
      && Good(store.queue, free, out, limit, |store.pages|)
      && PagesOk(store.pages)
      && |store.pages| <= limit
      && |store.pages| <= MAX_PAGES
    }

    /** Splits the head of list i and puts both halves on the empty list below. */
    method SplitHead(i: nat)
      requires Valid() && 0 < i < NR_MEM_LISTS && store.queue[i].list != [] && store.queue[i - 1].list == []
      modifies store`nr, store`queue, store.heads, store.nodes, this`free
      ensures Valid()
      ensures var q, p := old(store.queue), old(store.queue)[i].list[0];
              store.queue == q[i := Queue(q[i].list[1..], q[i].nrFree - 1)][i - 1 := Queue([p, p + Pow2(i - 1)], 2)]
    {
      hide Good, Lists.Valid, PagesOk, Pow2;
      store.Sizes();
      ghost var b, q := Block(store.queue[i].list[0], i), store.queue;
      SplitGood(q, free, out, limit, |store.pages|, i);
      var error, page := store.Del(i);
      error := store.Add(PageAt(page), i - 1);
      var d := Power(i - 1);
      page := page + d;
      error := store.Add(PageAt(page), i - 1);
      assert store.queue[i - 1] == Queue([b.page, b.page + Pow2(i - 1)], 2);
      assert store.queue == q[i := Queue(q[i].list[1..], q[i].nrFree - 1)][i - 1 := Queue([b.page, b.page + Pow2(i - 1)], 2)];
      free := Split(free, b);
    }

    /** Hands out the head of a list. */
    method TakeFirst(order: nat) returns (address: int)
      requires Valid() && order < NR_MEM_LISTS && store.queue[order].list != []
      modifies store`nr, store`queue, store.heads, store.nodes, this`free, this`out
      ensures Valid()
      ensures store.queue == old(store.queue)[order := Queue(old(store.queue)[order].list[1..], old(store.queue)[order].nrFree - 1)]
      ensures var p := old(store.queue)[order].list[0];
              address == p * PAGE_SIZE && Block(p, order) !in old(out) && out == old(out) + {Block(p, order)}
    {
      hide Shared, End, Match, Lines, Lists.Valid;
      Counted(store.queue, order);
      ghost var b := Block(store.queue[order].list[0], order);
      TakeHead(store.queue, free, order);
      SharedTake(free, out, limit, b);
      Known(store.queue, free, |store.pages|, order);
      var error, page := store.Del(order);
      free, out := free - {b}, out + {b};
      address := store.pages[page].address;
    }

    /** get_free_pages: the lowest block of the first order that has one, halved down to the order asked for. */
    method GetFreePages(order: nat) returns (address: int, ghost j: nat)
      requires Valid()
      requires order < NR_MEM_LISTS ==> exists i :: order <= i < NR_MEM_LISTS && store.queue[i].list != []
      modifies store`nr, store`queue, store.heads, store.nodes, this`free, this`out
      ensures Valid()
      ensures order >= NR_MEM_LISTS ==> address == 0 && unchanged(this) && unchanged(store)
      ensures order < NR_MEM_LISTS ==> FirstFrom(old(store.queue), order, j)
      ensures order < NR_MEM_LISTS ==>
        var p := old(store.queue)[j].list[0];
        && address == p * PAGE_SIZE
        && store.queue == Taken(old(store.queue), order, j, p)
        && Block(p, order) !in old(out) && out == old(out) + {Block(p, order)}
    {
      hide Good, Pow2, Carved, Taken, FirstFrom, PagesOk, Lines, Lists.Valid;
      store.Sizes();
      j := 0;
      if order >= NR_MEM_LISTS { return 0, j; }
      ghost var k :| order <= k < NR_MEM_LISTS && store.queue[k].list != [];
      ghost var q := store.queue;
      j := FirstExists(q, order, k);
      Sized(q, free, out, limit, |store.pages|);
      ghost var i, p := j, FirstPage(q, order, j);
      CarvedStart(q, order, i, j, p);
      while true
        invariant Valid() && order <= i <= j && out == old(out)
        invariant store.queue == Carved(q, i, j, p)
        decreases i
      {
        CarvedStart(q, order, i, j, p);
        store.Sizes();
        First(store.queue, order, i);
        var newOrder := order;
        if store.nr[newOrder] > 0 {
          CarvedEnd(q, order, j, p);
          address := TakeFirst(order);
          return address, j;
        }
        while store.nr[newOrder] == 0
          invariant order <= newOrder <= i
          modifies {}
          decreases i - newOrder
        {
          newOrder := newOrder + 1;
        }
        CarvedStep(q, order, i, j, p);
        SplitHead(newOrder);
        i := i - 1;
      }
    }

    /** buddy_list_tidy. */
    method Tidy()
      requires Valid()
      modifies store`nr, store`queue, store.heads, store.nodes, this`free
      ensures store.Valid() && store.queue == Tidied(store.pages, old(store.queue), 0)
      ensures old(Stacked(store.queue, 0)) ==> Valid()
      ensures (exists f :: Sound(store.queue, f, out, limit)) <==> old(AllUpward(store.pages, store.queue, 0))
    {
      hide Good, Tidied, Stacked, Sound, AllUpward, PagesOk, Lists.Valid;
      store.Sizes();
      TidyExact(store.pages, store.queue, free, out, limit);
      if Stacked(store.queue, 0) {
        free := TidyKeeps(store.pages, store.queue, free, out, limit, 0);
      }
      store.Tidy();
    }

    /** free_pages.  The pages stay shared out exactly if the page is that of a block that was handed out, and of the
        same order; a page that is on a list already leaves links that form no lists. */
    method FreePages(page: PagePtr, order: nat) returns (error: int, ghost i: nat)
      requires Valid() && (page.PageAt? ==> page.k < |store.pages|)
      modifies store`nr, store`queue, store.heads, store.nodes, this`free, this`out
      ensures error == if page.NoPage? || order >= NR_MEM_LISTS then -1 else 0
      ensures error != 0 || page.k < FIRST_RAM ==> unchanged(this) && store.queue == old(store.queue)
      ensures error == 0 && FIRST_RAM <= page.k ==> out == old(out) - {Block(page.k, order)}
      ensures error == 0 && FIRST_RAM <= page.k && !old(store.OnList(page.k)) ==>
                && store.Valid() && PlaceOf(old(store.queue)[order].list, page.k, i)
                && store.queue == Inserted(old(store.queue), order, page.k, i)
      ensures error == 0 && FIRST_RAM <= page.k && old(store.OnList(page.k)) ==> forall q :: !store.Linked(q)
      ensures Valid() <==>
                || error != 0 || page.k < FIRST_RAM
                || (Block(page.k, order) in old(out) && End(Block(page.k, order)) <= |store.pages|)
    {
      hide Shared, Match, Lines, End, PlaceOf, Lists.Linked;
      store.Sizes();
      i := 0;
      if page.NoPage? || order >= NR_MEM_LISTS { return -1, i; }
      error := 0;
      if store.pages[page.k].flags & SYS_RAM != 0 {
        ghost var b, q, on := Block(page.k, order), store.queue, store.OnList(page.k);
        if on { Listed(q, free, out, limit, b); } else { NotFree(q, free, b); }
        error, i := store.AddLine(page, order);
        if error < 0 { return -2, i; }
        if !on {
          AddressPlace(store.pages, q[order].list, page.k, i);
          InsertLine(q, free, order, page.k, i);
          if b in out { SharedGive(free, out, limit, b); } else { FreeTwice(free, out, limit, b); }
        }
        free, out := free + {b}, out - {b};
      }
    }
  }
}
