/** What a sequence of memory areas maps each address to, and why merging two adjacent areas with
    the same attributes changes nothing (merge_segments, mm/mmap.c). */
module AddressMap {
  import opened Words

  const VM_SHM: bv16 := 0x0400

  /** The parts of an area that matter for the address map; an inode or operations of 0 is NULL. */
  datatype Area = Area(start: nat, end: nat, inode: nat, pte: nat, ops: nat, flags: bv16, offset: u32)

  /** The test of merge_segments for areas whose offsets matter. */
  predicate FileBacked(ar: Area) {
    ar.inode != 0 || ar.flags & VM_SHM != 0
  }

  datatype Mapping = Unmapped | Anonymous(pte: nat, ops: nat, flags: bv16) | Backed(inode: nat, pte: nat, ops: nat, flags: bv16, at: u32)

  /** The 32-bit offset in the file or segment that address a of the area stands for. */
  ghost function OffsetOf(ar: Area, a: nat): u32 { (ar.offset + (a - ar.start)) % M }

  /** What an address of the area stands for: a place in its file or shared segment, or memory of its own. */
  ghost function MapOf(ar: Area, a: nat): Mapping {
    if ar.inode == 0 && ar.flags & 0x0400 == 0 then Anonymous(ar.pte, ar.ops, ar.flags)
    else Backed(ar.inode, ar.pte, ar.ops, ar.flags, OffsetOf(ar, a))
  }

  ghost predicate Described<N>(s: seq<N>, d: map<N, Area>) {
    forall n :: n in s ==> n in d
  }

  ghost function Lookup<N>(s: seq<N>, d: map<N, Area>, a: nat): Mapping
    requires Described(s, d)
  {
    if s == [] then Unmapped
    else if d[s[0]].start <= a < d[s[0]].end then MapOf(d[s[0]], a)
    else Lookup(s[1..], d, a)
  }

  /** The tests of merge_segments, in its order. */
  predicate Mergeable(prev: Area, mpnt: Area) {
    && mpnt.inode == prev.inode && mpnt.pte == prev.pte && mpnt.ops == prev.ops && mpnt.flags == prev.flags
    && mpnt.start == prev.end
    && (FileBacked(mpnt) ==> (prev.offset + prev.end - prev.start) % M == mpnt.offset)
  }

  /** The offsets of an area with an inode, or with the flag of shared segments, count its addresses from the start, and
      wrap at 2^32; an area with neither has no offsets. */
  lemma {:induction false} MapOfIs(ar: Area, a: nat)
    requires ar.start <= a
    ensures ar.inode != 0 || ar.flags & 0x0400 == 0x0400 ==>
              && MapOf(ar, a).Backed? && MapOf(ar, a).inode == ar.inode && MapOf(ar, ar.start).at == ar.offset
              && MapOf(ar, a + 1).at == (if MapOf(ar, a).at == 0xFFFF_FFFF then 0 else MapOf(ar, a).at + 1)
    ensures ar.inode == 0 && ar.flags & 0x0400 == 0 ==> MapOf(ar, a) == Anonymous(ar.pte, ar.ops, ar.flags)
  {
    assert ar.flags & 0x0400 == 0x0400 ==> ar.flags & 0x0400 != 0;
    var x := ar.offset + (a - ar.start);
    assert x == M * (x / M) + x % M;
  }

  /** The tests pass exactly if the areas touch and the first, taken as far as the second, maps the addresses of the
      second as it does itself. */
  lemma {:induction false} MergeableIff(prev: Area, mpnt: Area)
    requires prev.start <= prev.end <= mpnt.start < mpnt.end
    ensures Mergeable(prev, mpnt) <==>
              prev.end == mpnt.start && forall a :: mpnt.start <= a < mpnt.end ==> MapOf(prev.(end := mpnt.end), a) == MapOf(mpnt, a)
  {
    var wide := prev.(end := mpnt.end);
    if Mergeable(prev, mpnt) {
      forall a | mpnt.start <= a < mpnt.end ensures MapOf(wide, a) == MapOf(mpnt, a) {
        if FileBacked(mpnt) { SameOffset(prev, mpnt, a); }
      }
    }
    if prev.end == mpnt.start && forall a :: mpnt.start <= a < mpnt.end ==> MapOf(wide, a) == MapOf(mpnt, a) {
      assert MapOf(wide, mpnt.start) == MapOf(mpnt, mpnt.start);
      assert OffsetOf(mpnt, mpnt.start) == mpnt.offset;
    }
  }

  /** The areas after the one at i has taken over the range of the next one. */
  ghost function MergedSeq<N>(s: seq<N>, i: nat): seq<N>
    requires i + 1 < |s|
  {
    s[..i + 1] + s[i + 2..]
  }

  ghost function MergedDesc<N>(s: seq<N>, d: map<N, Area>, i: nat): map<N, Area>
    requires i + 1 < |s| && Described(s, d)
  {
    d[s[i] := d[s[i]].(end := d[s[i + 1]].end)]
  }

  /** The offset carries over the seam of two areas that fit. */
  lemma SameOffset(prev: Area, mpnt: Area, a: nat)
    requires Mergeable(prev, mpnt) && FileBacked(mpnt) && mpnt.start <= a && prev.start <= prev.end
    ensures OffsetOf(prev.(end := mpnt.end), a) == OffsetOf(mpnt, a)
  {
    var x, y := prev.offset + prev.end - prev.start, a - mpnt.start;
    assert prev.offset + (a - prev.start) == x + y;
    ModAdd(x, y);
  }

  lemma ModAdd(x: int, y: int)
    ensures (x % M + y) % M == (x + y) % M
  {
    assert x == M * (x / M) + x % M;
    ModShift(x % M + y, x / M);
  }

  lemma {:induction false} ModShift(z: int, k: int)
    ensures (z + M * k) % M == z % M
    decreases if k < 0 then -k else k
  {
    if k > 0 { ModShift(z, k - 1); ModOne(z + M * (k - 1)); }
    if k < 0 { ModShift(z, k + 1); ModOne(z + M * k); }
  }

  lemma ModOne(z: int)
    ensures (z + M) % M == z % M
  {}

  lemma {:induction false} LookupOther<N>(s: seq<N>, d: map<N, Area>, n: N, ar: Area, a: nat)
    requires Described(s, d) && n !in s
    ensures Described(s, d[n := ar]) && Lookup(s, d[n := ar], a) == Lookup(s, d, a)
  {
    if s != [] { LookupOther(s[1..], d, n, ar, a); }
  }

  /** Merging preserves for every address whether and to what it is mapped. */
  lemma {:induction false} MergeKeeps<N>(s: seq<N>, d: map<N, Area>, i: nat, a: nat)
    requires i + 1 < |s| && Described(s, d) && s[i] !in s[..i] && s[i] !in s[i + 1..]
    requires Mergeable(d[s[i]], d[s[i + 1]]) && d[s[i]].start <= d[s[i]].end <= d[s[i + 1]].end
    ensures var s', d' := MergedSeq(s, i), MergedDesc(s, d, i);
            Described(s', d') && Lookup(s', d', a) == Lookup(s, d, a)
  {
    var s', d' := MergedSeq(s, i), MergedDesc(s, d, i);
    if i == 0 {
      assert s' == [s[0]] + s[2..] && s[1..][1..] == s[2..];
      LookupOther(s[2..], d, s[0], d'[s[0]], a);
      if FileBacked(d[s[1]]) && d[s[1]].start <= a { SameOffset(d[s[0]], d[s[1]], a); }
    } else {
      MergeKeeps(s[1..], d, i - 1, a);
      assert s'[1..] == MergedSeq(s[1..], i - 1);
    }
  }
}
