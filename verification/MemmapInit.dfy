/** KrInitMemmap as a whole (Kernel/Source/Init/KrInitMemmap.c): sort the firmware map, then
    coalesce its usable regions. */
module MemmapInit {
  import opened Descriptors
  import opened SortDomain
  import opened MemmapSort
  import opened Canonical

  /** A firmware map in any order: nonempty descriptors, none twice, no two overlapping. */
  ghost predicate Disjoint(m: multiset<Descriptor>) {
    && (forall d | d in m :: d.pageCount > 0 && d.End() <= ADDRESS_SPACE && m[d] == 1)
    && (forall d, e | d in m && e in m && d != e :: d.End() <= e.physicalBase || e.End() <= d.physicalBase)
  }

  ghost predicate UsableIn(m: multiset<Descriptor>, address: nat) {
    exists d :: d in m && IsUsable(d.kind) && d.Covers(address)
  }

  lemma TwiceInBag(s: seq<Descriptor>, i: nat, j: nat)
    requires i < j < |s| && s[i] == s[j]
    ensures multiset(s)[s[i]] >= 2
  {
    assert s == s[..j] + s[j..];
    assert s[i] == s[..j][i] && s[j] == s[j..][0];
    assert s[i] in multiset(s[..j]) && s[j] in multiset(s[j..]);
  }

  lemma SortedFirmware(s: seq<Descriptor>)
    requires SortedIn(s, 0, |s|) && Disjoint(multiset(s))
    ensures Firmware(s)
  {
    forall i, j | 0 <= i < j < |s| ensures s[i].End() <= s[j].physicalBase {
      assert InOrder(s, i, j);
      assert s[i] in multiset(s) && s[j] in multiset(s);
      if s[i] == s[j] { TwiceInBag(s, i, j); }
    }
    forall k | 0 <= k < |s| ensures s[k].pageCount > 0 && s[k].End() <= ADDRESS_SPACE {
      assert s[k] in multiset(s);
    }
  }

  lemma UsableSame(s: seq<Descriptor>, address: nat)
    ensures UsableAt(s, 0, |s|, address) <==> UsableIn(multiset(s), address)
  {
    if UsableIn(multiset(s), address) {
      var d :| d in multiset(s) && IsUsable(d.kind) && d.Covers(address);
      assert d in s;
    }
    if UsableAt(s, 0, |s|, address) {
      var k :| 0 <= k < |s| && IsUsable(s[k].kind) && s[k].Covers(address);
      assert s[k] in multiset(s);
    }
  }

  /** Unless the sort leaves the array, the map ends up sorted and the canonical map covers what
      the usable descriptors of the firmware's map covered, in whatever order they came. */
  method InitMemmap(memoryMap: array<Descriptor>, canonical: array<Descriptor>) returns (ok: bool, n: nat)
    requires canonical.Length >= memoryMap.Length && memoryMap != canonical
    modifies memoryMap, canonical
    ensures ok <==> memoryMap.Length == 1 || exists t, u :: LowestBefore(old(memoryMap[..]), t, u)
    ensures multiset(memoryMap[..]) == multiset(old(memoryMap[..]))
    ensures n <= canonical.Length
    ensures ok && Disjoint(multiset(old(memoryMap[..]))) ==>
      && Firmware(memoryMap[..]) && CanonicalOf(memoryMap[..], canonical[..n])
      && forall address: nat :: Covered(canonical[..n], address) <==> UsableIn(multiset(old(memoryMap[..])), address)
  {
    n := 0;
    ghost var levels;
    ok, levels := SortMap(memoryMap);
    if ok {
      ghost var s := memoryMap[..];
      assert s == memoryMap[..memoryMap.Length];
      if Disjoint(multiset(s)) { SortedFirmware(s); }
      n := Coalesce(memoryMap, memoryMap.Length, canonical);
      assert memoryMap[..] == s;
      forall address: nat { UsableSame(s, address); }
    }
  }
}
