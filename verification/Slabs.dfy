/** Slabs and their free chains, mm/slab.c, with objects named by slab and index.

    The rings of lib/list.c appear as sequences from head to tail; module Ring shows that its operations have
    this effect. */
module Slabs {
  import opened Words
  import Zipper

  const BUFCTL_END := 0xFFFF_FFFF
  const SLAB_PAGES := 16 // two to the power DEFAULT_SLAB_PAGES
  const MAX_PAGES := 256 // two to the power MAX_SLAB_PAGES
  const MOST_SLABS := 16 // that may be in a cache with so many pages

  ghost function HeadOf(c: seq<nat>): nat {
    if c == [] then BUFCTL_END else c[0]
  }

  /** Following bufctl from free visits the indices of c, each once, and ends at BUFCTL_END. */
  ghost predicate Chain(free: nat, bufctl: seq<nat>, c: seq<nat>, n: nat) {
    && |bufctl| == n + 1
    && free == HeadOf(c)
    && NoDup(c)
    && forall i :: 0 <= i < |c| ==> c[i] < n && bufctl[c[i]] == HeadOf(c[i + 1..])
  }

  lemma {:induction false} Popped(free: nat, bufctl: seq<nat>, c: seq<nat>, n: nat)
    requires Chain(free, bufctl, c, n) && c != []
    ensures Chain(bufctl[free], bufctl, c[1..], n) && c[0] !in c[1..]
  {
    forall i | 0 <= i < |c| - 1 ensures bufctl[c[1..][i]] == HeadOf(c[1..][i + 1..]) {
      assert c[1..][i + 1..] == c[i + 2..];
      assert bufctl[c[i + 1]] == HeadOf(c[i + 1 + 1..]);
    }
  }

  lemma {:induction false} Pushed(free: nat, bufctl: seq<nat>, c: seq<nat>, n: nat, k: nat)
    requires Chain(free, bufctl, c, n) && k < n && k !in c
    ensures Chain(k, bufctl[k := free], [k] + c, n)
  {
    var c' := [k] + c;
    forall i | 0 <= i < |c'| ensures c'[i] < n && bufctl[k := free][c'[i]] == HeadOf(c'[i + 1..]) {
      if i == 0 {
        assert c'[1..] == c;
      } else {
        assert c'[i] == c[i - 1] && c'[i + 1..] == c[i..];
        assert bufctl[c[i - 1]] == HeadOf(c[i - 1 + 1..]);
      }
    }
  }

  /** After an index has been put on the chain a second time, no chain leads from it to the end. */
  lemma {:induction false} Circular(free: nat, bufctl: seq<nat>, c: seq<nat>, n: nat, k: nat, c': seq<nat>)
    requires Chain(free, bufctl, c, n) && k <= n && (k == n || k in c) && n < BUFCTL_END
    ensures !Chain(k, bufctl[k := free], c', n)
  {
    if Chain(k, bufctl[k := free], c', n) && k < n {
      var j :| 0 <= j < |c| && c[j] == k;
      assert k !in c[..j];
      Along(free, bufctl, c, n, k, c', j);
    }
  }

  /** The links from k on repeat the old chain up to k itself. */
  lemma {:induction false} Along(free: nat, bufctl: seq<nat>, c: seq<nat>, n: nat, k: nat, c': seq<nat>, i: nat)
    requires Chain(free, bufctl, c, n) && k < n < BUFCTL_END && Chain(k, bufctl[k := free], c', n)
    requires i < |c| && k !in c[..i]
    ensures i + 1 < |c'| && c'[i + 1] == c[i]
  {
    assert c' != [] && c'[0] == k;
    if i == 0 {
      assert bufctl[k := free][c'[0]] == HeadOf(c'[0 + 1..]);
    } else {
      assert c[..i] == c[..i - 1] + [c[i - 1]];
      Along(free, bufctl, c, n, k, c', i - 1);
      assert bufctl[c[i - 1]] == HeadOf(c[i - 1 + 1..]);
      assert bufctl[k := free][c'[i]] == HeadOf(c'[i + 1..]);
    }
  }

  ghost function Upto(n: nat): (r: set<nat>)
    ensures |r| == n && forall i :: i in r <==> 0 <= i < n
  {
    if n == 0 then {} else Upto(n - 1) + {n - 1}
  }

  /** The objects in use: the indices outside the chain. */
  ghost function InUse(c: seq<nat>, n: nat): set<nat> {
    set i | i in Upto(n) && i !in c
  }

  /** They are exactly as many as the counter says. */
  lemma {:induction false} LiveCount(free: nat, bufctl: seq<nat>, c: seq<nat>, n: nat)
    requires Chain(free, bufctl, c, n)
    ensures |c| <= n && |InUse(c, n)| == n - |c|
    decreases |c|
  {
    if c == [] {
      assert InUse(c, n) == Upto(n);
    } else {
      First(free, bufctl, c, n);
      Popped(free, bufctl, c, n);
      hide Chain, InUse;
      LiveCount(bufctl[free], bufctl, c[1..], n);
      OneMore(c, n);
    }
  }

  lemma {:induction false} OneMore(c: seq<nat>, n: nat)
    requires c != [] && c[0] < n && c[0] !in c[1..]
    ensures c[0] in InUse(c[1..], n) && InUse(c, n) == InUse(c[1..], n) - {c[0]}
  {
    assert c == [c[0]] + c[1..];
    assert forall i :: i in c <==> i == c[0] || i in c[1..];
  }

  lemma {:induction false} First(free: nat, bufctl: seq<nat>, c: seq<nat>, n: nat)
    requires Chain(free, bufctl, c, n)
    ensures n < BUFCTL_END ==> (free == BUFCTL_END <==> c == [])
    ensures c != [] ==> free == c[0] < n && c[0] !in c[1..]
  {
  }

  class Slab {
    var free: nat
    var inuse: nat
    var bufctl: seq<nat>
    ghost var chain: seq<nat>

    ghost predicate Ok(n: nat)
      reads this
    {
      Chain(free, bufctl, chain, n) && inuse + |chain| == n
    }

    /** slab_init: every object is free, in the order of their indices. */
    constructor (objNum: nat)
      requires 1 <= objNum < BUFCTL_END
      ensures Ok(objNum) && inuse == 0 && free == 0 && chain == seq(objNum, i => i)
    {
      free, inuse := 0, 0;
      bufctl := seq(objNum + 1, _ => 0);
      chain := seq(objNum, i => i);
      new;
      var i := 0;
      while i < objNum
        invariant 0 <= i <= objNum && |bufctl| == objNum + 1
        invariant free == 0 && inuse == 0 && chain == seq(objNum, i => i)
        invariant forall j :: 0 <= j < i ==> bufctl[j] == j + 1
      {
        bufctl := bufctl[i := i + 1];
        i := i + 1;
      }
      bufctl := bufctl[i - 1 := BUFCTL_END];
      forall j | 0 <= j < objNum ensures bufctl[chain[j]] == HeadOf(chain[j + 1..]) {
        assert j + 1 < objNum ==> chain[j + 1..][0] == j + 1;
      }
    }

    /** Takes the first index off the chain. */
    method Pop(ghost n: nat) returns (index: nat)
      requires Ok(n) && chain != []
      modifies this
      ensures Ok(n) && index == old(chain)[0] && chain == old(chain)[1..] && inuse == old(inuse) + 1
    {
      Popped(free, bufctl, chain, n);
      index := free;
      var next := bufctl[free];
      inuse := inuse + 1;
      free := next;
      chain := chain[1..];
    }

    /** Puts an index at the front of the chain. If it was in use the chain is whole again; otherwise the links
        run in a circle or out of the slab. */
    method Push(index: nat, ghost n: nat)
      requires Ok(n) && index <= n < BUFCTL_END
      modifies this
      ensures free == index && chain == [index] + old(chain) && inuse == (if old(inuse) == 0 then M - 1 else old(inuse) - 1)
      ensures index < n && index !in old(chain) ==> Ok(n) && old(inuse) > 0
      ensures index == n || index in old(chain) ==> forall c :: !Chain(free, bufctl, c, n)
    {
      if index < n && index !in chain {
        Pushed(free, bufctl, chain, n, index);
        LiveCount(index, bufctl[index := free], [index] + chain, n);
      } else {
        ghost var links := bufctl[index := free];
        forall c ensures !Chain(index, links, c, n) { Circular(free, bufctl, chain, n, index, c); }
      }
      bufctl := bufctl[index := free];
      free := index;
      inuse := if inuse == 0 then M - 1 else inuse - 1;
      chain := [index] + chain;
    }
  }

  /** list_del: a list without the entry x. */
  function Unlisted(s: seq<Slab>, x: Slab): seq<Slab> {
    Zipper.Without(s, x)
  }

  lemma {:induction false} UnlistedBag(s: seq<Slab>, x: Slab)
    ensures multiset(Unlisted(s, x)) == multiset(s) - multiset{x}
  {
    if s != [] {
      assert s == [s[0]] + s[1..];
      UnlistedBag(s[1..], x);
    }
  }

  datatype Obj = NullObj | ObjAt(slab: Slab, index: nat)

  /** Each slab is on exactly one list. */
  ghost predicate OneList(partial: seq<Slab>, full: seq<Slab>, free: seq<Slab>, slabs: set<Slab>) {
    multiset(partial) + multiset(full) + multiset(free) == multiset(slabs)
  }

  lemma {:induction false} Unlinked(partial: seq<Slab>, full: seq<Slab>, free: seq<Slab>, slabs: set<Slab>, x: Slab)
    requires OneList(partial, full, free, slabs) && x in slabs
    ensures OneList(Unlisted(partial, x), Unlisted(full, x), Unlisted(free, x), slabs - {x})
  {
    hide Unlisted;
    UnlistedBag(partial, x);
    UnlistedBag(full, x);
    UnlistedBag(free, x);
    BagMinus(multiset(partial), multiset(full), multiset(free), multiset(slabs), x);
    assert multiset(slabs - {x}) == multiset(slabs) - multiset{x};
  }

  lemma {:induction false} BagMinus(p: multiset<Slab>, f: multiset<Slab>, r: multiset<Slab>, s: multiset<Slab>, x: Slab)
    requires p + f + r == s && s[x] == 1
    ensures (p - multiset{x}) + (f - multiset{x}) + (r - multiset{x}) == s - multiset{x}
  {
    assert (p + f + r)[x] == 1;
  }

  lemma {:induction false} Members(partial: seq<Slab>, full: seq<Slab>, free: seq<Slab>, slabs: set<Slab>, x: Slab)
    requires OneList(partial, full, free, slabs)
    ensures x in slabs <==> x in partial || x in full || x in free
    ensures !(x in partial && x in full) && !(x in partial && x in free) && !(x in full && x in free)
  {
    var p, f, r := multiset(partial), multiset(full), multiset(free);
    assert (p + f + r)[x] <= 1;
  }

  lemma {:induction false} Relinked(partial: seq<Slab>, full: seq<Slab>, free: seq<Slab>, slabs: set<Slab>, x: Slab)
    requires OneList(partial, full, free, slabs) && x !in slabs
    ensures OneList(partial + [x], full, free, slabs + {x})
    ensures OneList(partial, full + [x], free, slabs + {x})
    ensures OneList(partial, full, free + [x], slabs + {x})
    ensures OneList(partial, full, [x] + free, slabs + {x})
  {
    assert multiset(slabs + {x}) == multiset(slabs) + multiset{x};
  }

  type Chains = map<Slab, seq<nat>>

  ghost function Snap(slabs: set<Slab>): Chains
    reads slabs
  {
    map s | s in slabs :: s.chain
  }

  /** The objects handed out are those outside the chains. */
  ghost predicate LiveOk(chains: Chains, live: set<Obj>, n: nat) {
    && (forall o :: o in live ==> o.ObjAt? && o.slab in chains && o.index < n && o.index !in chains[o.slab])
    && forall s, i :: s in chains && 0 <= i < n && i !in chains[s] ==> ObjAt(s, i) in live
  }

  /** Slabs on the partial list have a free object, those on the free list none in use. */
  ghost predicate ListsOk(chains: Chains, partial: seq<Slab>, free: seq<Slab>, n: nat) {
    && (forall s :: s in partial ==> s in chains && chains[s] != [])
    && forall s :: s in free ==> s in chains && |chains[s]| == n
  }

  lemma {:induction false} LivePop(chains: Chains, live: set<Obj>, n: nat, s: Slab)
    requires LiveOk(chains, live, n) && s in chains && chains[s] != [] && chains[s][0] < n && chains[s][0] !in chains[s][1..]
    ensures ObjAt(s, chains[s][0]) !in live
    ensures LiveOk(chains[s := chains[s][1..]], live + {ObjAt(s, chains[s][0])}, n)
  {
    var c := chains[s];
    assert forall i :: i in c <==> i == c[0] || i in c[1..];
  }

  lemma {:induction false} LivePush(chains: Chains, live: set<Obj>, n: nat, s: Slab, k: nat)
    requires LiveOk(chains, live, n) && ObjAt(s, k) in live
    ensures LiveOk(chains[s := [k] + chains[s]], live - {ObjAt(s, k)}, n)
  {
  }

  lemma {:induction false} LiveNew(chains: Chains, live: set<Obj>, n: nat, s: Slab, c: seq<nat>)
    requires LiveOk(chains, live, n) && s !in chains && forall i :: 0 <= i < n ==> i in c
    ensures LiveOk(chains[s := c], live, n)
  {
  }

  class Cache {
    const objNum: nat // what slab_estimate computes from the object size
    var nrPages: nat
    var nrFrees: nat
    var partial: seq<Slab>
    var full: seq<Slab>
    var free: seq<Slab>
    ghost var slabs: set<Slab>
    ghost var live: set<Obj>

    ghost predicate Valid()
      reads this, slabs
    {
      && 1 <= objNum < BUFCTL_END
      && OneList(partial, full, free, slabs)
      && (forall s :: s in slabs ==> s.Ok(objNum))
      && ListsOk(Snap(slabs), partial, free, objNum)
      && LiveOk(Snap(slabs), live, objNum)
      && nrPages == SLAB_PAGES * |slabs|
    }

    constructor (objNum: nat)
      requires 1 <= objNum < BUFCTL_END
      ensures Valid() && slabs == {} && live == {} && nrPages == nrFrees == 0 && partial == full == free == [] && this.objNum == objNum
    {
      this.objNum := objNum;
      nrPages, nrFrees := 0, 0;
      partial, full, free := [], [], [];
      slabs, live := {}, {};
    }

    /** slab_get_obj: the first object of the chain, if there is one; a slab without any left moves to the full
        list. Only a slab that is still on the free list must not be asked for one of several objects. */
    method SlabGetObj(slabp: Slab?) returns (obj: Obj)
      requires Valid() && (slabp != null ==> slabp in slabs)
      modifies this`partial, this`full, this`free, this`live, if slabp == null then {} else {slabp}
      ensures Valid() <==> slabp == null || slabp !in old(free) || objNum == 1
      ensures obj == NullObj <==> slabp == null || old(slabp.chain) == []
      ensures obj == NullObj ==> unchanged(this) && (slabp != null ==> unchanged(slabp))
      ensures obj != NullObj ==> obj == ObjAt(slabp, old(slabp.chain)[0]) && obj !in old(live) && live == old(live) + {obj}
      ensures obj != NullObj ==> slabp.chain == old(slabp.chain)[1..] && slabp.inuse == old(slabp.inuse) + 1
      ensures obj != NullObj && slabp.chain != [] ==> partial == old(partial) && full == old(full) && free == old(free)
      ensures obj != NullObj && slabp.chain == [] ==>
                partial == Unlisted(old(partial), slabp) && full == Unlisted(old(full), slabp) + [slabp] && free == Unlisted(old(free), slabp)
    {
      hide LiveOk, ListsOk, OneList, Chain, Unlisted;
      if slabp == null { return NullObj; }
      ghost var m := Snap(slabs);
      First(slabp.free, slabp.bufctl, slabp.chain, objNum);
      if slabp.free == BUFCTL_END {
        Listed(m, partial, free, objNum, slabp);
        return NullObj;
      }
      LivePop(m, live, objNum, slabp);
      var index := slabp.Pop(objNum);
      obj := ObjAt(slabp, index);
      live := live + {obj};
      assert Snap(slabs) == m[slabp := slabp.chain];
      if slabp.inuse == objNum {
        Listed(m, partial, free, objNum, slabp);
        ToFull(partial, full, free, slabs, m, objNum, slabp);
        partial, full, free := Unlisted(partial, slabp), Unlisted(full, slabp) + [slabp], Unlisted(free, slabp);
      } else {
        StillListed(partial, full, free, slabs, m, objNum, slabp, slabp.chain);
      }
    }

    /** slab_free_obj: the object goes to the front of its chain; a slab with none left in use moves to the free
        list. This is sound exactly for an object in use; the bound on the index lets one too many through. */
    method SlabFreeObj(slabp: Slab?, obj: Obj) returns (error: int)
      requires Valid()
      requires slabp != null && obj.ObjAt? ==> obj.slab == slabp && slabp in slabs
      modifies this`partial, this`full, this`free, this`live, if slabp == null then {} else {slabp}
      ensures error == if slabp == null || obj == NullObj then -1 else if obj.index > objNum then -2 else 0
      ensures Valid() <==> error != 0 || obj in old(live)
      ensures error == 0 && obj !in old(live) ==> forall c :: !Chain(slabp.free, slabp.bufctl, c, objNum)
      ensures error != 0 ==> unchanged(this) && (slabp != null ==> unchanged(slabp))
      ensures error == 0 ==> live == old(live) - {obj} && slabp.free == obj.index && slabp.chain == [obj.index] + old(slabp.chain)
      ensures error == 0 ==> slabp.inuse == if old(slabp.inuse) == 0 then M - 1 else old(slabp.inuse) - 1
      ensures error == 0 && obj in old(live) ==> old(slabp.inuse) > 0
      ensures error == 0 && slabp.inuse != 0 ==> partial == old(partial) && full == old(full) && free == old(free)
      ensures error == 0 && slabp.inuse == 0 ==>
                partial == Unlisted(old(partial), slabp) && full == Unlisted(old(full), slabp) && free == Unlisted(old(free), slabp) + [slabp]
    {
      hide LiveOk, ListsOk, OneList, Chain, Unlisted, Snap, Slab.Ok;
      if slabp == null || obj == NullObj { return -1; }
      var objnr := obj.index;
      if objnr > objNum { return -2; }
      ghost var m, was := Snap(slabs), live;
      PutBack(slabp, objnr);
      if slabp.inuse == 0 {
        if obj in was { ToFree(partial, full, free, slabs, m, objNum, slabp, slabp.chain); }
        partial, full, free := Unlisted(partial, slabp), Unlisted(full, slabp), Unlisted(free, slabp) + [slabp];
      } else if obj in was {
        StillUsed(partial, full, free, slabs, m, objNum, slabp, slabp.chain);
      }
      error := 0;
    }

    /** Puts an object at the front of the chain of its slab. */
    method PutBack(slabp: Slab, index: nat)
      requires Valid() && slabp in slabs && index <= objNum
      modifies this`live, slabp
      ensures Snap(slabs) == old(Snap(slabs))[slabp := slabp.chain] && slabp.free == index && slabp.chain == [index] + old(slabp.chain)
      ensures slabp in old(Snap(slabs)) && old(Snap(slabs))[slabp] == old(slabp.chain)
      ensures live == old(live) - {ObjAt(slabp, index)} && slabp.inuse == (if old(slabp.inuse) == 0 then M - 1 else old(slabp.inuse) - 1)
      ensures ObjAt(slabp, index) in old(live) ==>
                && old(slabp.inuse) > 0 && slabp.inuse + |slabp.chain| == objNum
                && LiveOk(Snap(slabs), live, objNum) && forall s :: s in slabs ==> s.Ok(objNum)
      ensures ObjAt(slabp, index) !in old(live) ==> !slabp.Ok(objNum) && forall c :: !Chain(slabp.free, slabp.bufctl, c, objNum)
    {
      hide LiveOk, ListsOk, OneList, Chain;
      ghost var m, obj := Snap(slabs), ObjAt(slabp, index);
      InLive(m, live, objNum, obj);
      if obj in live { LivePush(m, live, objNum, slabp, index); }
      slabp.Push(index, objNum);
      live := live - {obj};
      assert Snap(slabs) == m[slabp := slabp.chain];
    }

    /** kmem_get_slab: the last partial slab, for which an unused one may be promoted. */
    method KmemGetSlab() returns (slabp: Slab?)
      requires Valid()
      modifies this`partial, this`free
      ensures Valid()
      ensures slabp == null <==> old(partial) == [] && old(free) == []
      ensures slabp == null || old(partial) != [] ==> unchanged(this)
      ensures old(partial) == [] && old(free) != [] ==> partial == [old(free)[0]] && free == old(free)[1..]
      ensures slabp != null ==> slabp in partial && slabp == partial[|partial| - 1] && slabp in slabs
    {
      hide LiveOk, ListsOk, OneList, Chain;
      if partial == [] {
        if free == [] { return null; }
        var item := free[0];
        Promoted(full, free, slabs, Snap(slabs), objNum);
        assert partial + [item] == [item];
        free := free[1..];
        partial := partial + [item];
      }
      slabp := partial[|partial| - 1];
      Members(partial, full, free, slabs, slabp);
    }

    /** No slab on the full list has a free object. */
    ghost predicate Tight()
      reads this`full, this`slabs, slabs
    {
      forall s :: s in slabs && s in full ==> s.chain == []
    }

    /** cache_grow: a fresh slab on the free list. */
    method Grow()
      requires Valid()
      modifies this`nrPages, this`nrFrees, this`free, this`slabs
      ensures Valid() && nrPages == old(nrPages) + SLAB_PAGES && nrFrees == old(nrFrees) + objNum
      ensures free != [] && free[1..] == old(free) && fresh(free[0]) && slabs == old(slabs) + {free[0]}
      ensures free[0].inuse == 0 && free[0].chain == seq(objNum, i => i)
      ensures old(Tight()) ==> Tight()
    {
      hide LiveOk, ListsOk, OneList, Slab.Ok;
      ghost var m := Snap(slabs);
      forall s | s in full ensures s in slabs { Members(partial, full, free, slabs, s); }
      var slabp := new Slab(objNum);
      nrPages := nrPages + SLAB_PAGES;
      EveryIndex(objNum);
      LiveNew(m, live, objNum, slabp, slabp.chain);
      Added(partial, full, free, slabs, m, objNum, slabp, slabp.chain);
      nrFrees := nrFrees + objNum;
      free := [slabp] + free;
      slabs := slabs + {slabp};
      assert Snap(slabs) == m[slabp := slabp.chain];
    }

    /** kmem_get_obj: the first object of the last partial slab, or else of the first unused one, for which the cache
        grows if there is none. Nothing is handed out if both lists are empty and the cache may not grow, although slabs
        on the full list may have free objects. */
    method KmemGetObj() returns (obj: Obj)
      requires Valid()
      modifies this, slabs
      ensures Valid() && (old(Tight()) ==> Tight()) && (old(nrPages) <= MAX_PAGES ==> nrPages <= MAX_PAGES)
      ensures old(slabs) <= slabs && fresh(slabs - old(slabs))
      ensures obj == NullObj <==> old(partial) == [] && old(free) == [] && old(nrPages) >= MAX_PAGES
      ensures obj == NullObj ==> unchanged(this, old(slabs))
      ensures obj != NullObj ==> obj !in old(live) && live == old(live) + {obj}
      ensures obj != NullObj && (old(partial) != [] || old(free) != []) ==>
                && slabs == old(slabs) && nrPages == old(nrPages) && nrFrees == old(nrFrees)
                && obj.slab == Asked(old(partial), old(free)) && [obj.index] + obj.slab.chain == old(Asked(partial, free).chain)
                && Moved(old(partial), old(full), old(free), partial, full, free, obj.slab.chain == [])
      ensures obj != NullObj && old(partial) == [] && old(free) == [] ==>
                && nrPages == old(nrPages) + SLAB_PAGES && nrFrees == old(nrFrees) + objNum
                && fresh(obj.slab) && slabs == old(slabs) + {obj.slab} && [obj.index] + obj.slab.chain == seq(objNum, i => i)
                && Moved([], old(full), [obj.slab], partial, full, free, obj.slab.chain == [])
      ensures forall t :: t in old(slabs) && (obj == NullObj || t != obj.slab) ==> unchanged(t)
    {
      hide LiveOk, ListsOk, OneList, Chain, Moved, Slab.Ok, Snap;
      ghost var grown := false;
      while true
        invariant Valid() && live == old(live) && (old(Tight()) ==> Tight())
        invariant !grown ==> unchanged(this)
        invariant full == old(full) && unchanged(old(slabs))
        invariant grown ==> old(partial) == [] && old(free) == [] && old(nrPages) < MAX_PAGES && nrPages <= MAX_PAGES
        invariant grown ==> partial == [] && |free| == 1 && fresh(free[0]) && slabs == old(slabs) + {free[0]}
        invariant grown ==> free[0].chain == seq(objNum, i => i)
        invariant grown ==> nrPages == old(nrPages) + SLAB_PAGES && nrFrees == old(nrFrees) + objNum
        decreases !grown
      {
        assert grown ==> free == [free[0]];
        obj := Try();
        if obj != NullObj { return; }
        if nrPages >= MAX_PAGES { return; }
        assert nrPages == SLAB_PAGES * |slabs|;
        Grow();
        grown := true;
      }
    }

    /** When kmem_get_obj finds nothing, an object is free after all exactly if a slab on the full list has one. */
    lemma Idle()
      requires Valid() && partial == [] && free == []
      ensures (exists s, i :: s in slabs && 0 <= i < objNum && ObjAt(s, i) !in live) <==> exists s :: s in full && s.chain != []
    {
      hide OneList, NoDup;
      var m := Snap(slabs);
      forall s | s in slabs ensures s in full && (forall i :: 0 <= i < objNum ==> (ObjAt(s, i) !in live <==> i in s.chain)) {
        Members(partial, full, free, slabs, s);
        forall i | 0 <= i < objNum ensures ObjAt(s, i) !in live <==> i in s.chain { InLive(m, live, objNum, ObjAt(s, i)); }
      }
      if s :| s in full && s.chain != [] {
        Members(partial, full, free, slabs, s);
        assert s.Ok(objNum);
        assert s.chain[0] in s.chain && s.chain[0] < objNum;
        assert ObjAt(s, s.chain[0]) !in live;
      }
    }

    /** One attempt of kmem_get_obj. */
    method Try() returns (obj: Obj)
      requires Valid()
      modifies this`partial, this`full, this`free, this`live, slabs
      ensures Valid() && (old(Tight()) ==> Tight())
      ensures obj == NullObj <==> old(partial) == [] && old(free) == []
      ensures obj == NullObj ==> unchanged(this, slabs)
      ensures obj != NullObj ==>
                && obj !in old(live) && live == old(live) + {obj} && obj.slab in slabs
                && obj.slab == Asked(old(partial), old(free)) && [obj.index] + obj.slab.chain == old(Asked(partial, free).chain)
                && Moved(old(partial), old(full), old(free), partial, full, free, obj.slab.chain == [])
      ensures forall t :: t in slabs && (obj == NullObj || t != obj.slab) ==> unchanged(t)
    {
      hide Cache.Valid, Tight, Moved;
      var slabp := KmemGetSlab();
      if slabp == null { return NullObj; }
      MovedIs(old(partial), full, old(free), partial, free);
      obj := FromLast(slabp);
    }

    /** slab_get_obj of the last partial slab. */
    method FromLast(slabp: Slab) returns (obj: Obj)
      requires Valid() && partial != [] && slabp == partial[|partial| - 1]
      modifies this`partial, this`full, this`free, this`live, slabp
      ensures Valid() && (old(Tight()) ==> Tight()) && slabp in slabs && free == old(free)
      ensures obj != NullObj && obj.slab == slabp && [obj.index] + slabp.chain == old(slabp.chain)
      ensures obj !in old(live) && live == old(live) + {obj}
      ensures partial == if slabp.chain == [] then old(partial)[..|old(partial)| - 1] else old(partial)
      ensures full == if slabp.chain == [] then old(full) + [slabp] else old(full)
    {
      hide LiveOk, ListsOk, OneList, Chain, Unlisted, Slab.Ok;
      Members(partial, full, free, slabs, slabp);
      Listed(Snap(slabs), partial, free, objNum, slabp);
      LastOut(partial, full, free, slabs);
      obj := SlabGetObj(slabp);
    }
  }

  /** The slab that is asked for an object: the last partial one, or else the first unused one. */
  ghost function Asked(partial: seq<Slab>, free: seq<Slab>): Slab
    requires partial != [] || free != []
  {
    if partial != [] then partial[|partial| - 1] else free[0]
  }

  /** How the three lists change when that slab gives an object: it is partial then, or full if it was its last one. */
  ghost predicate Moved(partial: seq<Slab>, full: seq<Slab>, free: seq<Slab>, partial': seq<Slab>, full': seq<Slab>, free': seq<Slab>, last: bool)
    requires partial != [] || free != []
  {
    var s := Asked(partial, free);
    var others := if partial != [] then partial[..|partial| - 1] else [];
    && free' == (if partial != [] then free else free[1..])
    && partial' == (if last then others else others + [s])
    && full' == (if last then full + [s] else full)
  }

  lemma {:induction false} MovedIs(partial: seq<Slab>, full: seq<Slab>, free: seq<Slab>, partial': seq<Slab>, free': seq<Slab>)
    requires partial != [] || free != []
    requires if partial != [] then partial' == partial && free' == free else partial' == [free[0]] && free' == free[1..]
    ensures Asked(partial, free) == partial'[|partial'| - 1]
    ensures Moved(partial, full, free, partial', full, free', false)
    ensures Moved(partial, full, free, partial'[..|partial'| - 1], full + [partial'[|partial'| - 1]], free', true)
  {
    assert partial != [] ==> partial == partial[..|partial| - 1] + [partial[|partial| - 1]];
  }

  lemma {:induction false} Unlisting(s: seq<Slab>, x: Slab)
    requires x !in s
    ensures Unlisted(s, x) == s && Unlisted(s + [x], x) == s
  {
    Zipper.WithoutAt(s, x, []);
    assert s + [x] + [] == s + [x] && s + [] == s;
    Unlisted1(s, x);
  }

  lemma {:induction false} Unlisted1(s: seq<Slab>, x: Slab)
    requires x !in s
    ensures Unlisted(s, x) == s
  {
    if s != [] { Unlisted1(s[1..], x); }
  }

  /** The last partial slab is on no other list, and only once on that. */
  lemma {:induction false} LastOut(partial: seq<Slab>, full: seq<Slab>, free: seq<Slab>, slabs: set<Slab>)
    requires OneList(partial, full, free, slabs) && partial != []
    ensures var x := partial[|partial| - 1];
            Unlisted(partial, x) == partial[..|partial| - 1] && Unlisted(full, x) == full && Unlisted(free, x) == free
  {
    var p, x := partial[..|partial| - 1], partial[|partial| - 1];
    assert partial == p + [x];
    Members(partial, full, free, slabs, x);
    assert (multiset(partial) + multiset(full) + multiset(free))[x] <= 1;
    assert multiset(partial) == multiset(p) + multiset{x};
    hide OneList, Unlisted;
    Unlisting(p, x);
    Unlisting(full, x);
    Unlisting(free, x);
  }

  lemma {:induction false} Listed(m: Chains, partial: seq<Slab>, free: seq<Slab>, n: nat, x: Slab)
    requires ListsOk(m, partial, free, n) && x in m
    ensures x in free ==> |m[x]| == n
    ensures x in partial ==> m[x] != []
  {
  }

  lemma {:induction false} ToFull(partial: seq<Slab>, full: seq<Slab>, free: seq<Slab>, slabs: set<Slab>, m: Chains, n: nat, x: Slab)
    requires OneList(partial, full, free, slabs) && ListsOk(m, partial, free, n) && x in slabs
    ensures OneList(Unlisted(partial, x), Unlisted(full, x) + [x], Unlisted(free, x), slabs)
    ensures ListsOk(m[x := []], Unlisted(partial, x), Unlisted(free, x), n)
  {
    hide Unlisted, OneList;
    Unlinked(partial, full, free, slabs, x);
    Relinked(Unlisted(partial, x), Unlisted(full, x), Unlisted(free, x), slabs - {x}, x);
    assert slabs - {x} + {x} == slabs;
    Fewer(partial, x);
    Fewer(free, x);
    Members(Unlisted(partial, x), Unlisted(full, x) + [x], Unlisted(free, x), slabs, x);
  }

  /** A slab with some objects in use and some free may stay where it is unless that is the free list. */
  lemma {:induction false} StillListed(partial: seq<Slab>, full: seq<Slab>, free: seq<Slab>, slabs: set<Slab>, m: Chains, n: nat, x: Slab, c: seq<nat>)
    requires OneList(partial, full, free, slabs) && ListsOk(m, partial, free, n) && x in slabs && 0 < |c| < n
    ensures ListsOk(m[x := c], partial, free, n) <==> x !in free
  {
    Members(partial, full, free, slabs, x);
  }

  lemma {:induction false} ToFree(partial: seq<Slab>, full: seq<Slab>, free: seq<Slab>, slabs: set<Slab>, m: Chains, n: nat, x: Slab, c: seq<nat>)
    requires OneList(partial, full, free, slabs) && ListsOk(m, partial, free, n) && x in slabs && |c| == n
    ensures OneList(Unlisted(partial, x), Unlisted(full, x), Unlisted(free, x) + [x], slabs)
    ensures ListsOk(m[x := c], Unlisted(partial, x), Unlisted(free, x) + [x], n)
  {
    hide Unlisted, OneList;
    Unlinked(partial, full, free, slabs, x);
    Relinked(Unlisted(partial, x), Unlisted(full, x), Unlisted(free, x), slabs - {x}, x);
    assert slabs - {x} + {x} == slabs;
    Fewer(partial, x);
    Fewer(free, x);
    Members(Unlisted(partial, x), Unlisted(full, x), Unlisted(free, x) + [x], slabs, x);
  }

  lemma {:induction false} StillUsed(partial: seq<Slab>, full: seq<Slab>, free: seq<Slab>, slabs: set<Slab>, m: Chains, n: nat, x: Slab, c: seq<nat>)
    requires OneList(partial, full, free, slabs) && ListsOk(m, partial, free, n) && x in m && |m[x]| < n && c != []
    ensures ListsOk(m[x := c], partial, free, n)
  {
  }

  lemma {:induction false} InLive(m: Chains, live: set<Obj>, n: nat, obj: Obj)
    requires LiveOk(m, live, n) && obj.ObjAt? && obj.slab in m && obj.index <= n
    ensures obj in live <==> obj.index < n && obj.index !in m[obj.slab]
  {
  }

  lemma {:induction false} Promoted(full: seq<Slab>, free: seq<Slab>, slabs: set<Slab>, m: Chains, n: nat)
    requires OneList([], full, free, slabs) && ListsOk(m, [], free, n) && free != [] && n > 0
    ensures OneList([free[0]], full, free[1..], slabs) && ListsOk(m, [free[0]], free[1..], n)
  {
    assert free == [free[0]] + free[1..];
  }

  lemma {:induction false} Added(partial: seq<Slab>, full: seq<Slab>, free: seq<Slab>, slabs: set<Slab>, m: Chains, n: nat, x: Slab, c: seq<nat>)
    requires OneList(partial, full, free, slabs) && ListsOk(m, partial, free, n) && x !in slabs && x !in m && |c| == n
    ensures OneList(partial, full, [x] + free, slabs + {x}) && ListsOk(m[x := c], partial, [x] + free, n)
  {
    Relinked(partial, full, free, slabs, x);
  }

  lemma {:induction false} EveryIndex(n: nat)
    ensures var c := seq(n, i => i); |c| == n && forall i :: 0 <= i < n ==> i in c
  {
    var c := seq(n, i => i);
    forall i | 0 <= i < n ensures i in c { assert c[i] == i; }
  }

  lemma {:induction false} Fewer(s: seq<Slab>, x: Slab)
    ensures forall y :: y in Unlisted(s, x) ==> y in s
  {
    UnlistedBag(s, x);
    forall y | y in Unlisted(s, x) ensures y in s { assert y in multiset(Unlisted(s, x)); }
  }

  lemma {:induction false} SlabBound(live: set<Obj>, s: Slab, n: nat)
    requires forall o :: o in live ==> o.ObjAt? && o.slab == s && o.index < n
    ensures |live| <= n
  {
    if n > 0 {
      SlabBound(live - {ObjAt(s, n - 1)}, s, n - 1);
    } else {
      assert live == {};
    }
  }

  /** There are never more objects in use than the slabs can hold. */
  lemma {:induction false} LiveBound(slabs: set<Slab>, live: set<Obj>, n: nat)
    requires forall o :: o in live ==> o.ObjAt? && o.slab in slabs && o.index < n
    ensures |live| <= n * |slabs|
    decreases |slabs|
  {
    if slabs == {} {
      assert live == {};
    } else {
      var s :| s in slabs;
      var here := set o | o in live && o.slab == s;
      SlabBound(here, s, n);
      LiveBound(slabs - {s}, live - here, n);
      Parts(live, here);
      Parts(slabs, {s});
      Distribute(n, |slabs - {s}|);
    }
  }

  lemma {:induction false} Parts<N>(all: set<N>, some: set<N>)
    requires some <= all
    ensures |all| == |some| + |all - some|
  {
    assert all == some + (all - some);
  }

  lemma {:induction false} Distribute(n: nat, k: nat)
    ensures n * (k + 1) == n * k + n
  {
  }

  /** If every object is in use there are as many as the slabs can hold. */
  lemma {:induction false} LiveFull(slabs: set<Slab>, live: set<Obj>, n: nat)
    requires forall o :: o in live ==> o.ObjAt? && o.slab in slabs && o.index < n
    requires forall s, i :: s in slabs && 0 <= i < n ==> ObjAt(s, i) in live
    ensures |live| == n * |slabs|
    decreases |slabs|
  {
    if slabs == {} {
      assert live == {};
    } else {
      var s :| s in slabs;
      var here := set o | o in live && o.slab == s;
      SlabFull(here, s, n);
      LiveFull(slabs - {s}, live - here, n);
      Parts(live, here);
      Parts(slabs, {s});
      Distribute(n, |slabs - {s}|);
    }
  }

  lemma {:induction false} SlabFull(live: set<Obj>, s: Slab, n: nat)
    requires forall o :: o in live ==> o.ObjAt? && o.slab == s && o.index < n
    requires forall i :: 0 <= i < n ==> ObjAt(s, i) in live
    ensures |live| == n
  {
    if n > 0 {
      SlabFull(live - {ObjAt(s, n - 1)}, s, n - 1);
    } else {
      assert live == {};
    }
  }

  /** Nothing is free in a cache whose slabs are all on the full list, if these have nothing free. */
  lemma {:induction false} AllUsed(cache: Cache)
    requires cache.Valid() && cache.Tight() && cache.partial == [] && cache.free == [] && cache.nrPages == MAX_PAGES
    ensures |cache.live| == cache.objNum * MOST_SLABS
  {
    assert |cache.slabs| == MOST_SLABS;
    hide OneList, Chain;
    var m := Snap(cache.slabs);
    forall s, i | s in cache.slabs && 0 <= i < cache.objNum ensures ObjAt(s, i) in cache.live {
      Members(cache.partial, cache.full, cache.free, cache.slabs, s);
      InLive(m, cache.live, cache.objNum, ObjAt(s, i));
    }
    LiveFull(cache.slabs, cache.live, cache.objNum);
  }

  /** Takes objects until there are no more: there are sixteen slabs full of them. */
  method UseUp(cache: Cache) returns (last: Obj, n: nat)
    requires cache.Valid() && cache.Tight() && cache.nrPages == 0
    modifies cache, cache.slabs
    ensures cache.Valid() && cache.Tight() && last in cache.live && fresh(cache.slabs - old(cache.slabs))
    ensures cache.partial == [] && cache.free == [] && cache.nrPages >= MAX_PAGES
    ensures n == |cache.live| == cache.objNum * MOST_SLABS
  {
    hide Cache.Valid, Cache.Tight, Asked, Moved;
    Unused(cache);
    last := cache.KmemGetObj();
    n := 1;
    while true
      invariant cache.Valid() && cache.Tight() && cache.nrPages <= MAX_PAGES && fresh(cache.slabs - old(cache.slabs))
      invariant last in cache.live && n == |cache.live|
      decreases cache.objNum * MOST_SLABS - |cache.live|
    {
      Within(cache);
      var obj := cache.KmemGetObj();
      if obj == NullObj { break; }
      Within(cache);
      last, n := obj, n + 1;
    }
    AllUsed(cache);
  }

  lemma {:induction false} Unused(cache: Cache)
    requires cache.Valid() && cache.nrPages == 0
    ensures cache.live == {}
  {
    hide OneList, ListsOk, Chain;
    assert cache.slabs == {};
    NoneLive(Snap(cache.slabs), cache.live, cache.objNum);
  }

  lemma {:induction false} Within(cache: Cache)
    requires cache.Valid() && cache.nrPages <= MAX_PAGES
    ensures |cache.live| <= cache.objNum * MOST_SLABS
  {
    hide OneList, ListsOk, Chain;
    Room(Snap(cache.slabs), cache.live, cache.slabs, cache.objNum);
  }

  lemma {:induction false} NoneLive(m: Chains, live: set<Obj>, n: nat)
    requires LiveOk(m, live, n) && m.Keys == {}
    ensures live == {}
  {
  }

  /** A cache with two or more objects to a slab is used up and one object given back: its slab stays on the full
      list, and the next request fails although that object is free. */
  method Starve(objNum: nat) returns (cache: Cache, obj: Obj, ghost idle: Obj)
    requires 2 <= objNum < BUFCTL_END
    ensures cache.objNum == objNum
    ensures cache.Valid() && obj == NullObj
    ensures idle.ObjAt? && idle.slab in cache.slabs && idle.index < cache.objNum && idle !in cache.live
  {
    hide LiveOk, ListsOk, OneList, Chain, Unlisted;
    cache := new Cache(objNum);
    var last, _ := UseUp(cache);
    InUseObj(Snap(cache.slabs), cache.live, objNum, last);
    Members(cache.partial, cache.full, cache.free, cache.slabs, last.slab);
    var error := cache.SlabFreeObj(last.slab, last);
    idle := last;
    obj := cache.KmemGetObj();
  }

  lemma {:induction false} InUseObj(m: Chains, live: set<Obj>, n: nat, obj: Obj)
    requires LiveOk(m, live, n) && obj in live
    ensures obj.ObjAt? && obj.slab in m && obj.index < n
  {
  }

  lemma {:induction false} Room(m: Chains, live: set<Obj>, slabs: set<Slab>, n: nat)
    requires LiveOk(m, live, n) && m.Keys == slabs && |slabs| <= MOST_SLABS
    ensures |live| <= n * MOST_SLABS
  {
    LiveBound(slabs, live, n);
    Monotone(n, |slabs|, MOST_SLABS);
  }

  lemma {:induction false} Monotone(n: nat, a: nat, b: nat)
    requires a <= b
    ensures n * a <= n * b
  {
  }
}
