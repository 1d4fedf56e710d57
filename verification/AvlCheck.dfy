/** The consistency checks of mm/mmap.c (avl_checkheights, avl_checkleft, avl_checkright, avl_checkorder):
    they find no fault exactly with the trees that the operations keep. */
module AvlCheck {
  import opened Zipper
  import opened AvlMemory
  import opened AvlBalance
  import opened AvlTree

  /** avl_checkheights prints nothing. */
  ghost predicate CheckHeights(t: T) {
    match t
    case Leaf => true
    case Node(l, _, h, r) =>
      var hl, hr := H(l), H(r);
      && CheckHeights(l) && CheckHeights(r)
      && ((h == hl + 1 && hr <= hl && hl <= hr + 1) || (h == hr + 1 && hl <= hr && hr <= hl + 1))
  }

  /** avl_checkleft and avl_checkright print nothing. */
  ghost predicate CheckLeft(t: T, key: map<Vma, nat>, k: nat)
    requires Nodes(t) <= key.Keys
  {
    t.Node? ==> CheckLeft(t.left, key, k) && CheckLeft(t.right, key, k) && key[t.n] < k
  }

  ghost predicate CheckRight(t: T, key: map<Vma, nat>, k: nat)
    requires Nodes(t) <= key.Keys
  {
    t.Node? ==> CheckRight(t.left, key, k) && CheckRight(t.right, key, k) && key[t.n] > k
  }

  /** avl_checkorder prints nothing. */
  ghost predicate CheckOrder(t: T, key: map<Vma, nat>)
    requires Nodes(t) <= key.Keys
  {
    t.Node? ==>
      && CheckOrder(t.left, key) && CheckOrder(t.right, key)
      && CheckLeft(t.left, key, key[t.n]) && CheckRight(t.right, key, key[t.n])
  }

  lemma {:induction false} HeightsIff(t: T)
    ensures CheckHeights(t) <==> Avl(t)
  {
    if t.Node? {
      HeightsIff(t.left);
      HeightsIff(t.right);
    }
  }

  lemma {:induction false} LeftIff(t: T, key: map<Vma, nat>, k: nat)
    requires Nodes(t) <= key.Keys
    ensures CheckLeft(t, key, k) <==> forall n :: n in Nodes(t) ==> key[n] < k
  {
    if t.Node? {
      LeftIff(t.left, key, k);
      LeftIff(t.right, key, k);
    }
  }

  lemma {:induction false} RightIff(t: T, key: map<Vma, nat>, k: nat)
    requires Nodes(t) <= key.Keys
    ensures CheckRight(t, key, k) <==> forall n :: n in Nodes(t) ==> key[n] > k
  {
    if t.Node? {
      RightIff(t.left, key, k);
      RightIff(t.right, key, k);
    }
  }

  /** Two increasing runs on either side of a key. */
  ghost predicate Parts(a: seq<Vma>, n: Vma, b: seq<Vma>, key: map<Vma, nat>)
    requires n in key
  {
    && Increasing(a, key) && Increasing(b, key)
    && (forall x :: x in a ==> x in key && key[x] < key[n]) && forall x :: x in b ==> x in key && key[x] > key[n]
  }

  lemma {:induction false} Apart(a: seq<Vma>, n: Vma, b: seq<Vma>, key: map<Vma, nat>)
    requires n in key && Increasing(a + [n] + b, key)
    ensures Parts(a, n, b, key)
  {
    var s := a + [n] + b;
    assert s[|a|] == n;
    forall i, j | 0 <= i < j < |b| ensures key[b[i]] < key[b[j]] {
      assert s[|a| + 1 + i] == b[i] && s[|a| + 1 + j] == b[j];
    }
    forall i, j | 0 <= i < j < |a| ensures key[a[i]] < key[a[j]] { assert s[i] == a[i] && s[j] == a[j]; }
    forall x | x in a ensures key[x] < key[n] {
      var i :| 0 <= i < |a| && a[i] == x;
      assert s[i] == x;
    }
    forall x | x in b ensures key[x] > key[n] {
      var i :| 0 <= i < |b| && b[i] == x;
      assert s[|a| + 1 + i] == x;
    }
  }

  lemma {:induction false} Joined(a: seq<Vma>, n: Vma, b: seq<Vma>, key: map<Vma, nat>)
    requires n in key && Parts(a, n, b, key)
    ensures Increasing(a + [n] + b, key)
  {
    var s := a + [n] + b;
    forall i, j | 0 <= i < j < |s| ensures key[s[i]] < key[s[j]] {
      var x, y := s[i], s[j];
      assert i < |a| ==> x == a[i] && x in a;
      assert j > |a| ==> y == b[j - |a| - 1] && y in b;
      if j < |a| {
        assert y == a[j];
      } else if i > |a| {
        assert x == b[i - |a| - 1];
      }
    }
  }

  lemma {:induction false} OrderIff(t: T, key: map<Vma, nat>)
    requires Nodes(t) <= key.Keys
    ensures CheckOrder(t, key) <==> Increasing(InOrder(t), key)
  {
    forall n ensures n in InOrder(t) <==> n in Nodes(t) { InOrderNodes(t, n); }
    if t.Node? {
      OrderIff(t.left, key);
      OrderIff(t.right, key);
      LeftIff(t.left, key, key[t.n]);
      RightIff(t.right, key, key[t.n]);
      forall n ensures (n in InOrder(t.left) <==> n in Nodes(t.left)) && (n in InOrder(t.right) <==> n in Nodes(t.right)) {
        InOrderNodes(t.left, n);
        InOrderNodes(t.right, n);
      }
      if Increasing(InOrder(t), key) { Apart(InOrder(t.left), t.n, InOrder(t.right), key); }
      if CheckOrder(t, key) { Joined(InOrder(t.left), t.n, InOrder(t.right), key); }
      hide Increasing, CheckLeft, CheckRight;
    }
  }
}
