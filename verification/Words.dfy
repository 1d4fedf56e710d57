/** Machine words and pages, powers of two and right shifts; sequences without repetition. */
module Words {

  const M := 0x1_0000_0000
  const PAGE_SIZE := 4096

  type u32 = x: int | 0 <= x < M

  function Pow2(k: nat): (r: nat)
    ensures r >= 1
  {
    if k == 0 then 1 else 2 * Pow2(k - 1)
  }

  /** A logical right shift. */
  function Shr(x: nat, s: nat): nat {
    if s == 0 then x else Shr(x, s - 1) / 2
  }

  lemma {:induction false} ShrZero(x: nat, s: nat, t: nat)
    requires Shr(x, s) == 0 && s <= t
    ensures Shr(x, t) == 0
  {
    if s < t { ShrZero(x, s, t - 1); }
  }

  ghost predicate NoDup<N>(s: seq<N>) {
    forall i, j :: 0 <= i < j < |s| ==> s[i] != s[j]
  }
}
