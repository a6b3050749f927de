/** The coalescing of usable regions into the canonical map (KrInitMemmap.c). */
module Canonical {
  import opened Machine
  import opened Descriptors

  const ADDRESS_SPACE: nat := 0x1_0000_0000_0000_0000

  /** A sorted firmware map of nonempty descriptors that do not overlap. */
  ghost predicate Firmware(s: seq<Descriptor>) {
    && (forall k {:trigger s[k]} | 0 <= k < |s| :: s[k].pageCount > 0 && s[k].End() <= ADDRESS_SPACE)
    && (forall i, j {:trigger s[i], s[j]} | 0 <= i < j < |s| :: s[i].End() <= s[j].physicalBase)
  }

  /** Some usable descriptor with an index in [lo, hi) covers the address. */
  ghost predicate UsableAt(s: seq<Descriptor>, lo: nat, hi: nat, address: nat) {
    exists k {:trigger s[k]} :: lo <= k < hi && k < |s| && IsUsable(s[k].kind) && s[k].Covers(address)
  }

  ghost function UsablePages(s: seq<Descriptor>, lo: nat, hi: nat): nat
    requires hi <= |s|
  {
    if hi <= lo then 0 else UsablePages(s, lo, hi - 1) + if IsUsable(s[hi - 1].kind) then s[hi - 1].pageCount else 0
  }

  /** Entries are nonempty, sorted, and no two touch; their other fields are fixed. */
  ghost predicate Maximal(c: seq<Descriptor>) {
    && (forall k {:trigger c[k]} | 0 <= k < |c| :: c[k].pageCount > 0)
    && (forall k {:trigger c[k]} | 0 <= k < |c| :: c[k].kind == CONVENTIONAL_MEMORY && c[k].attributes == c[k].pad == 0)
    && (forall i, j {:trigger c[i], c[j]} | 0 <= i < j < |c| :: c[i].End() < c[j].physicalBase)
  }

  /** The canonical form of a firmware map. */
  ghost predicate CanonicalOf(s: seq<Descriptor>, c: seq<Descriptor>) {
    && Maximal(c)
    && (forall address: nat :: Covered(c, address) <==> UsableAt(s, 0, |s|, address))
    && TotalPageCount(c) == UsablePages(s, 0, |s|)
  }

  /** A super region of the descriptors [i, j). */
  ghost predicate Chain(s: seq<Descriptor>, i: nat, j: nat, d: Descriptor) {
    && i < j <= |s|
    && d.physicalBase == s[i].physicalBase && d.End() == s[j - 1].End() && d.pageCount > 0
    && d.pageCount == UsablePages(s, i, j)
    && (forall address: nat :: d.Covers(address) <==> UsableAt(s, i, j, address))
  }

  /** The canonical entries made of the first `i` descriptors. */
  ghost predicate Built(s: seq<Descriptor>, i: nat, c: seq<Descriptor>) {
    && i <= |s|
    && Maximal(c)
    && (forall address: nat :: Covered(c, address) <==> UsableAt(s, 0, i, address))
    && TotalPageCount(c) == UsablePages(s, 0, i)
    && (forall e, k {:trigger c[e], s[k]} | 0 <= e < |c| && i <= k < |s| && IsUsable(s[k].kind) ::
        c[e].End() < s[k].physicalBase)
  }

  lemma UsableSplit(s: seq<Descriptor>, lo: nat, mid: nat, hi: nat, address: nat)
    requires lo <= mid <= hi <= |s|
    ensures UsableAt(s, lo, hi, address) <==> UsableAt(s, lo, mid, address) || UsableAt(s, mid, hi, address)
  {
  }

  lemma {:induction false} PagesSplit(s: seq<Descriptor>, lo: nat, mid: nat, hi: nat)
    requires lo <= mid <= hi <= |s|
    ensures UsablePages(s, lo, hi) == UsablePages(s, lo, mid) + UsablePages(s, mid, hi)
  {
    if mid < hi { PagesSplit(s, lo, mid, hi - 1); }
  }

  lemma ChainStarts(s: seq<Descriptor>, i: nat)
    requires i < |s| && IsUsable(s[i].kind) && s[i].pageCount > 0
    ensures Chain(s, i, i + 1, Merged(s[i].physicalBase, s[i].pageCount))
  {
    var d := Merged(s[i].physicalBase, s[i].pageCount);
    forall address: nat ensures d.Covers(address) <==> UsableAt(s, i, i + 1, address) {
      assert s[i].Covers(address) == d.Covers(address);
    }
    assert UsablePages(s, i, i) == 0;
  }

  lemma ChainGrows(s: seq<Descriptor>, i: nat, j: nat, base: nat, count: nat)
    requires j < |s| && IsUsable(s[j].kind) && s[j].pageCount > 0
    requires Chain(s, i, j, Merged(base, count)) && Merged(base, count).End() == s[j].physicalBase
    ensures Chain(s, i, j + 1, Merged(base, count + s[j].pageCount))
  {
    var d, e := Merged(base, count), Merged(base, count + s[j].pageCount);
    forall address: nat ensures e.Covers(address) <==> UsableAt(s, i, j + 1, address) {
      UsableSplit(s, i, j, j + 1, address);
      assert e.Covers(address) <==> d.Covers(address) || s[j].Covers(address);
    }
  }

  lemma AppendCovers(c: seq<Descriptor>, d: Descriptor, address: nat)
    ensures Covered(c + [d], address) <==> Covered(c, address) || d.Covers(address)
  {
    assert d in c + [d];
    if Covered(c + [d], address) && !d.Covers(address) {
      var e :| e in c + [d] && e.Covers(address);
      assert e in c;
    }
  }

  lemma AppendMaximal(s: seq<Descriptor>, i: nat, j: nat, c: seq<Descriptor>, d: Descriptor)
    requires Built(s, i, c) && Chain(s, i, j, d) && IsUsable(s[i].kind)
    requires d.kind == CONVENTIONAL_MEMORY && d.attributes == d.pad == 0
    ensures Maximal(c + [d])
  {
    forall e | 0 <= e < |c| ensures c[e].End() < d.physicalBase {
      assert s[i].physicalBase == d.physicalBase;
    }
  }

  lemma AppendChain(s: seq<Descriptor>, i: nat, j: nat, c: seq<Descriptor>, d: Descriptor)
    requires Firmware(s) && Built(s, i, c) && Chain(s, i, j, d) && IsUsable(s[i].kind)
    requires d.kind == CONVENTIONAL_MEMORY && d.attributes == d.pad == 0
    requires j < |s| && IsUsable(s[j].kind) ==> d.End() != s[j].physicalBase
    ensures Built(s, j, c + [d])
  {
    AppendMaximal(s, i, j, c, d);
    PagesSplit(s, 0, i, j);
    assert (c + [d])[..|c|] == c;
    forall address: nat ensures Covered(c + [d], address) <==> UsableAt(s, 0, j, address) {
      AppendCovers(c, d, address);
      UsableSplit(s, 0, i, j, address);
    }
    forall k | j <= k < |s| && IsUsable(s[k].kind) ensures d.End() < s[k].physicalBase {
      GapBefore(s, j, k, d.End());
    }
  }

  lemma GapBefore(s: seq<Descriptor>, j: nat, k: nat, end: nat)
    requires Firmware(s) && 0 < j <= k < |s| && IsUsable(s[k].kind) && end == s[j - 1].End()
    requires IsUsable(s[j].kind) ==> end != s[j].physicalBase
    ensures end < s[k].physicalBase
  {
    assert end <= s[j].physicalBase < s[j].End();
    assert j < k ==> s[j].End() <= s[k].physicalBase;
  }

  /** A canonical descriptor. */
  function Merged(base: nat, count: nat): Descriptor {
    Descriptor(base, count, 0, CONVENTIONAL_MEMORY, 0)
  }

  /** The inner loop: how far the usable chain that starts at `i` reaches. Sums are taken modulo
      the width of the machine's integers. */
  method PeekAhead(memoryMap: array<Descriptor>, entryCount: nat, i: nat) returns (j: nat, count: nat)
    requires i < entryCount <= memoryMap.Length && IsUsable(memoryMap[i].kind)
    ensures i < j <= entryCount
    ensures Firmware(memoryMap[..entryCount]) ==>
      && Chain(memoryMap[..entryCount], i, j, Merged(memoryMap[i].physicalBase, count))
      && (j < entryCount && IsUsable(memoryMap[j].kind) ==>
          Merged(memoryMap[i].physicalBase, count).End() != memoryMap[j].physicalBase)
  {
    ghost var s := memoryMap[..entryCount];
    var base := memoryMap[i].physicalBase;
    count := memoryMap[i].pageCount;
    j := i + 1;
    if Firmware(s) { ChainStarts(s, i); }
    while j < entryCount
      invariant i < j <= entryCount
      invariant Firmware(s) ==> Chain(s, i, j, Merged(base, count))
    {
      var ahead := memoryMap[j];
      assert ahead == s[j];
      if !IsUsable(ahead.kind) || (base + count * PAGE) % ADDRESS_SPACE != ahead.physicalBase {
        break;
      }
      if Firmware(s) { ChainGrows(s, i, j, base, count); }
      count := (count + ahead.pageCount) % ADDRESS_SPACE;
      j := j + 1;
    }
  }

  /** The coalescing loop of KrInitMemmap, for a canonical map that starts out empty. */
  method Coalesce(memoryMap: array<Descriptor>, entryCount: nat, canonical: array<Descriptor>) returns (n: nat)
    requires entryCount <= memoryMap.Length && entryCount <= canonical.Length && memoryMap != canonical
    modifies canonical
    ensures n <= entryCount
    ensures Firmware(memoryMap[..entryCount]) ==> CanonicalOf(memoryMap[..entryCount], canonical[..n])
  {
    ghost var s, c: seq<Descriptor> := memoryMap[..entryCount], [];
    n := 0;
    var i := 0;
    while i < entryCount
      invariant n <= i <= entryCount && memoryMap[..entryCount] == s && canonical[..n] == c
      invariant Firmware(s) ==> Built(s, i, c)
    {
      var next := memoryMap[i];
      assert next == s[i];
      if IsUsable(next.kind) {
        var j, count := PeekAhead(memoryMap, entryCount, i);
        assert j < entryCount ==> memoryMap[j] == s[j];
        var d := Merged(next.physicalBase, count);
        if Firmware(s) { AppendChain(s, i, j, c, d); }
        canonical[n] := d;
        c := c + [d];
        n, i := n + 1, j;
      } else {
        if Firmware(s) { SkipUnusable(s, i, c); }
        i := i + 1;
      }
    }
  }

  lemma SkipUnusable(s: seq<Descriptor>, i: nat, c: seq<Descriptor>)
    requires Built(s, i, c) && i < |s| && !IsUsable(s[i].kind)
    ensures Built(s, i + 1, c)
  {
    forall address: nat ensures Covered(c, address) <==> UsableAt(s, 0, i + 1, address) {
      UsableSplit(s, 0, i, i + 1, address);
    }
  }

  // ---- The canonical form is unique ----

  lemma LowestCovered(c: seq<Descriptor>, address: nat)
    requires Maximal(c) && c != [] && Covered(c, address)
    ensures c[0].physicalBase <= address
    ensures c[0].Covers(address) || Covered(c[1..], address)
    ensures c[0].End() != address
  {
    var k :| 0 <= k < |c| && c[k].Covers(address);
    assert k > 0 ==> c[k] == c[1..][k - 1] && c[0].End() < c[k].physicalBase;
  }

  lemma FirstCovered(c: seq<Descriptor>, address: nat)
    requires c != []
    ensures c[0].Covers(address) ==> Covered(c, address)
    ensures Covered(c[1..], address) ==> Covered(c, address)
  {
    if Covered(c[1..], address) {
      var k :| 0 <= k < |c[1..]| && c[1..][k].Covers(address);
      assert c[1..][k] == c[k + 1];
    }
  }

  /** Coverage decides the canonical map: sorted, nonempty entries that do not touch and cover the
      same addresses are the same entries. */
  lemma {:induction false} CanonicalUnique(a: seq<Descriptor>, b: seq<Descriptor>)
    requires Maximal(a) && Maximal(b)
    requires forall address: nat :: Covered(a, address) <==> Covered(b, address)
    ensures a == b
  {
    if a == [] || b == [] {
      assert a != [] ==> a[0].Covers(a[0].physicalBase) && a[0] in a && Covered(b, a[0].physicalBase);
      assert b != [] ==> b[0].Covers(b[0].physicalBase) && b[0] in b && Covered(a, b[0].physicalBase);
    } else {
      SameFirst(a, b);
      forall address: nat ensures Covered(a[1..], address) <==> Covered(b[1..], address) {
        RestCovered(a, address);
        RestCovered(b, address);
      }
      CanonicalUnique(a[1..], b[1..]);
      assert a == [a[0]] + a[1..] && b == [b[0]] + b[1..];
    }
  }

  lemma RestCovered(c: seq<Descriptor>, address: nat)
    requires Maximal(c) && c != []
    ensures Covered(c[1..], address) <==> Covered(c, address) && !c[0].Covers(address)
  {
    FirstCovered(c, address);
    if Covered(c, address) { LowestCovered(c, address); }
    if Covered(c[1..], address) {
      var k :| 0 <= k < |c[1..]| && c[1..][k].Covers(address);
      assert c[1..][k] == c[k + 1];
      assert c[0].End() < c[k + 1].physicalBase;
    }
  }

  lemma SameFirst(a: seq<Descriptor>, b: seq<Descriptor>)
    requires Maximal(a) && Maximal(b) && a != [] && b != []
    requires forall address: nat :: Covered(a, address) <==> Covered(b, address)
    ensures a[0] == b[0]
  {
    NotLower(a, b);
    NotLower(b, a);
    NotLonger(a, b);
    NotLonger(b, a);
  }

  lemma NotLower(a: seq<Descriptor>, b: seq<Descriptor>)
    requires Maximal(a) && Maximal(b) && a != [] && b != []
    requires forall address: nat :: Covered(a, address) ==> Covered(b, address)
    ensures b[0].physicalBase <= a[0].physicalBase
  {
    FirstCovered(a, a[0].physicalBase);
    LowestCovered(b, a[0].physicalBase);
  }

  lemma NotLonger(a: seq<Descriptor>, b: seq<Descriptor>)
    requires Maximal(a) && Maximal(b) && a != [] && b != [] && a[0].physicalBase == b[0].physicalBase
    requires forall address: nat :: Covered(a, address) ==> Covered(b, address)
    ensures a[0].End() <= b[0].End()
  {
    FirstCovered(a, b[0].End());
    if Covered(b, b[0].End()) { LowestCovered(b, b[0].End()); }
  }
}
