/** The start of memory management as a whole: the firmware map is sorted and coalesced
    (Kernel/Source/Init/KrInitMemmap.c), the page manager built from it
    (Kernel/Source/Memory/Physmemmgmt.c), and the direct map on top
    (Kernel/Source/Memory/PrivateVMM/DmapInit.h). */
module Startup {
  import opened Machine
  import opened Descriptors
  import opened SortDomain
  import opened MemmapInit
  import opened Canonical
  import opened PageSearch
  import opened Physmem
  import opened PageTable
  import opened Vmm
  import opened DirectWindow
  import opened DirectMap
  import opened DirectMapInit
  import opened Boot

  /** By the numbers of the UEFI Specification, section 7.2.3: code and data of the loader (1, 2) and of the
      boot services (3, 4), conventional memory (7), and ACPI memory to reclaim (9) or to keep (10). */
  predicate InDirectMap(kind: nat) {
    Reusable(kind) || kind == 10
  }

  predicate Reusable(kind: nat) {
    1 <= kind <= 4 || kind == 7 || kind == 9
  }

  /** Mappable descriptors, in any order. */
  ghost predicate AllMappable(m: multiset<Descriptor>) {
    forall d | d in m && InDirectMap(d.kind) ::
      d.physicalBase % PAGE == 0 && d.End() <= WINDOW_PAGES * PAGE
  }

  ghost predicate UsableIn(m: multiset<Descriptor>, address: nat) {
    exists d :: d in m && Reusable(d.kind) && d.Covers(address)
  }

  ghost predicate MappedIn(m: multiset<Descriptor>, address: nat) {
    exists d :: d in m && InDirectMap(d.kind) && d.Covers(address)
  }

  lemma MappedSame(s: seq<Descriptor>, address: nat)
    ensures MappedAt(s, address) <==> MappedIn(multiset(s), address)
  {
    if MappedIn(multiset(s), address) {
      var d :| d in multiset(s) && InDirectMap(d.kind) && d.Covers(address);
      assert d in s;
    }
    if MappedAt(s, address) {
      var k :| 0 <= k < |s| && IsMapped(s[k].kind) && s[k].Covers(address);
      assert s[k] in multiset(s);
    }
  }

  lemma UsableSame(s: seq<Descriptor>, address: nat)
    ensures UsableAt(s, 0, |s|, address) <==> UsableIn(multiset(s), address)
  {
    if UsableIn(multiset(s), address) {
      var d :| d in multiset(s) && Reusable(d.kind) && d.Covers(address);
      assert d in s;
    }
    if UsableAt(s, 0, |s|, address) {
      var k :| 0 <= k < |s| && IsUsable(s[k].kind) && s[k].Covers(address);
      assert s[k] in multiset(s);
    }
  }

  lemma MappableSame(s: seq<Descriptor>)
    requires AllMappable(multiset(s))
    ensures Mappable(s)
  {
    forall k | 0 <= k < |s| && IsMapped(s[k].kind)
      ensures s[k].physicalBase % PAGE == 0 && s[k].End() <= WINDOW_PAGES * PAGE
    {
      assert s[k] in multiset(s);
    }
  }

  /** The highest end is that of some usable descriptor. */
  lemma {:induction false} HighestReached(s: seq<Descriptor>)
    ensures Highest(s) == 0 || exists d :: d in s && IsUsable(d.kind) && d.End() == Highest(s)
    decreases |s|
  {
    if s != [] {
      var n := |s| - 1;
      HighestReached(s[..n]);
      assert s[n] in s && forall d | d in s[..n] :: d in s;
    }
  }

  lemma HighestBelow(s: seq<Descriptor>, r: seq<Descriptor>)
    requires multiset(s) == multiset(r)
    ensures Highest(s) <= Highest(r)
  {
    HighestReached(s);
    if Highest(s) != 0 {
      var d :| d in s && IsUsable(d.kind) && d.End() == Highest(s);
      assert d in multiset(r);
      var k :| 0 <= k < |r| && r[k] == d;
      HighestBounds(r, k);
    }
  }

  /** The number of pages does not depend on the order of the map. */
  lemma TotalSame(s: seq<Descriptor>, r: seq<Descriptor>)
    requires multiset(s) == multiset(r)
    ensures PageTotal(s) == PageTotal(r)
  {
    HighestBelow(s, r);
    HighestBelow(r, s);
  }

  /** The kernel's own pages stay taken. */
  lemma KernelTaken(canonical: seq<Descriptor>, kernelPage: nat, kernelPages: nat, nr: nat, id: nat)
    requires kernelPage <= id < kernelPage + kernelPages <= nr
    ensures id in ClosedPages(canonical, kernelPage, kernelPages, nr)
  {
    ClosedPagesMeaning(canonical, kernelPage, kernelPages, nr);
    assert !Free(ClosedPages(canonical, kernelPage, kernelPages, nr), nr, id);
  }

  /** The page can still be handed out when the direct map is finished. */
  ghost predicate LeftFree(usable: bool, kernelPage: nat, kernelPages: nat, nr: nat, tab: map<Prefix, nat>, id: nat) {
    usable && !(kernelPage <= id < kernelPage + kernelPages) && !(id < 256 <= nr) && !HoldsTable(tab, id)
  }

  lemma FreeAtLast(memoryMap: seq<Descriptor>, canonical: seq<Descriptor>, kernelPage: nat, kernelPages: nat,
        tab: map<Prefix, nat>, taken: set<nat>, reserved: set<nat>, id: nat)
    requires Firmware(memoryMap) && Mappable(memoryMap) && CanonicalOf(memoryMap, canonical)
    requires kernelPage + kernelPages <= PageTotal(memoryMap) && FramesTaken(tab, taken)
    requires TablesKept(ClosedPages(canonical, kernelPage, kernelPages, PageTotal(memoryMap)), tab, taken, reserved)
    ensures Free(taken, PageTotal(memoryMap), id) <==>
      LeftFree(UsableAt(memoryMap, 0, |memoryMap|, id * PAGE), kernelPage, kernelPages, PageTotal(memoryMap), tab, id)
  {
    InitiallyFreeMeaning(memoryMap, canonical, kernelPage, kernelPages, id);
    if HoldsTable(tab, id) {
      var q :| q in tab && tab[q] == id * PAGE;
      assert id * PAGE / PAGE == id;
    }
  }

  /** A frame in the area that the kernel was loaded to. */
  predicate InKernel(frame: nat, kernelPage: nat, kernelPages: nat) {
    frame % PAGE == 0 && kernelPage <= frame / PAGE < kernelPage + kernelPages
  }

  /** From the firmware's map, in any order, to the finished direct map. The tables and the bootstrap
      arena lie in the kernel's area. On success exactly the bytes that the firmware calls usable or ACPI
      NVS translate, each to itself, the free pages are the usable ones but for the kernel's, the first MiB
      and the tables, and nothing that is taken can be released; it fails only where the sort leaves the
      array, without an arena, or when no page is left. */
  method StartMemory(memoryMap: array<Descriptor>, canonical: array<Descriptor>, t: Tables, hugePageSupport: bool,
                     kernelPage: nat, kernelPages: nat, barenaBase: nat, barenaMax: nat)
    returns (ok: bool, pm: PageManager?)
    requires memoryMap != canonical && memoryMap.Length <= canonical.Length && memoryMap.Length < 0x1_0000_0000
    requires Disjoint(multiset(memoryMap[..])) && AllMappable(multiset(memoryMap[..]))
    requires PageTotal(memoryMap[..]) <= ADDRESSED && kernelPage + kernelPages <= PageTotal(memoryMap[..])
    requires t.Valid() && WindowUnused(t.frames, t.root) && barenaBase % PAGE == 0
    requires forall q {:trigger q in t.tab} | q in t.tab :: InKernel(t.tab[q], kernelPage, kernelPages)
    requires forall k: nat {:trigger FrameAt(barenaBase, k)} | k < barenaMax ::
      InKernel(FrameAt(barenaBase, k), kernelPage, kernelPages) && FrameAt(barenaBase, k) !in t.tab.Values
    modifies memoryMap, canonical, t`frames, t`tab
    ensures ok ==> t.Valid() && pm != null && pm.Valid() && SameOutside(old(t.frames), t.frames, t.root)
    ensures ok ==> forall p: nat | p < WINDOW_PAGES * PAGE ::
      Translate(t.frames, t.root, DMAP_BASE + p) ==
      if MappedIn(multiset(old(memoryMap[..])), p) then Some(p) else None
    ensures ok ==> forall p: nat | p < WINDOW_PAGES * PAGE && MappedIn(multiset(old(memoryMap[..])), p) ::
      KernelData(Lookup(t.frames, t.root, DMAP_BASE + p), !t.initialized || t.noExecuteSupport)
    ensures ok ==> pm.taken <= pm.reserved && forall id: nat :: Free(pm.taken, pm.nrPages, id) <==>
      LeftFree(UsableIn(multiset(old(memoryMap[..])), id * PAGE), kernelPage, kernelPages, pm.nrPages, t.tab, id)
    ensures !ok ==>
      || (memoryMap.Length != 1 && !exists u, v :: LowestBefore(old(memoryMap[..]), u, v))
      || barenaMax == 0 || (pm != null && pm.Dry(INVALID_PAGE))
  {
    pm := null;
    ghost var bag := multiset(memoryMap[..]);
    var sorted, usable;
    ok, sorted, usable := SortedMaps(memoryMap, canonical);
    if ok {
      ok, pm := StartPages(sorted, usable, t, hugePageSupport, kernelPage, kernelPages, barenaBase, barenaMax);
      AllMappedSame(sorted, bag);
    }
  }

  /** The two maps as values. */
  method SortedMaps(memoryMap: array<Descriptor>, canonical: array<Descriptor>)
    returns (ok: bool, sorted: seq<Descriptor>, usable: seq<Descriptor>)
    requires memoryMap != canonical && memoryMap.Length <= canonical.Length
    requires Disjoint(multiset(memoryMap[..])) && AllMappable(multiset(memoryMap[..]))
    modifies memoryMap, canonical
    ensures ok <==> memoryMap.Length == 1 || exists u, v :: LowestBefore(old(memoryMap[..]), u, v)
    ensures ok ==> Firmware(sorted) && Mappable(sorted) && CanonicalOf(sorted, usable)
    ensures ok ==> |sorted| == memoryMap.Length && PageTotal(sorted) == PageTotal(old(memoryMap[..]))
    ensures ok ==> multiset(sorted) == multiset(old(memoryMap[..]))
  {
    ghost var raw := memoryMap[..];
    var n;
    ok, n := InitMemmap(memoryMap, canonical);
    sorted, usable := memoryMap[..], canonical[..n];
    if ok {
      TotalSame(raw, sorted);
      MappableSame(sorted);
    }
  }

  lemma AllMappedSame(s: seq<Descriptor>, bag: multiset<Descriptor>)
    requires bag == multiset(s)
    ensures forall p: nat :: MappedAt(s, p) <==> MappedIn(bag, p)
    ensures forall p: nat :: UsableAt(s, 0, |s|, p) <==> UsableIn(bag, p)
  {
    forall p: nat
      ensures (MappedAt(s, p) <==> MappedIn(bag, p)) && (UsableAt(s, 0, |s|, p) <==> UsableIn(bag, p))
    {
      MappedSame(s, p);
      UsableSame(s, p);
    }
  }

  /** The page manager and the direct map. */
  method StartPages(memoryMap: seq<Descriptor>, canonical: seq<Descriptor>, t: Tables, hugePageSupport: bool,
                    kernelPage: nat, kernelPages: nat, barenaBase: nat, barenaMax: nat)
    returns (ok: bool, pm: PageManager)
    requires Firmware(memoryMap) && Mappable(memoryMap) && CanonicalOf(memoryMap, canonical)
    requires |memoryMap| < 0x1_0000_0000
    requires PageTotal(memoryMap) <= ADDRESSED && kernelPage + kernelPages <= PageTotal(memoryMap)
    requires t.Valid() && WindowUnused(t.frames, t.root) && barenaBase % PAGE == 0
    requires forall q {:trigger q in t.tab} | q in t.tab :: InKernel(t.tab[q], kernelPage, kernelPages)
    requires forall k: nat {:trigger FrameAt(barenaBase, k)} | k < barenaMax ::
      InKernel(FrameAt(barenaBase, k), kernelPage, kernelPages) && FrameAt(barenaBase, k) !in t.tab.Values
    modifies t`frames, t`tab
    ensures ok ==> t.Valid() && pm.Valid() && SameOutside(old(t.frames), t.frames, t.root)
    ensures ok ==> forall p: nat | p < WINDOW_PAGES * PAGE ::
      Translate(t.frames, t.root, DMAP_BASE + p) == if MappedAt(memoryMap, p) then Some(p) else None
    ensures ok ==> forall p: nat | p < WINDOW_PAGES * PAGE && MappedAt(memoryMap, p) ::
      KernelData(Lookup(t.frames, t.root, DMAP_BASE + p), !t.initialized || t.noExecuteSupport)
    ensures ok ==> pm.taken <= pm.reserved && forall id: nat :: Free(pm.taken, pm.nrPages, id) <==>
      LeftFree(UsableAt(memoryMap, 0, |memoryMap|, id * PAGE), kernelPage, kernelPages, pm.nrPages, t.tab, id)
    ensures !ok ==> barenaMax == 0 || pm.Dry(INVALID_PAGE)
  {
    CanonicalFits(memoryMap, canonical);
    pm := new PageManager.Init(memoryMap, canonical, kernelPage, kernelPages);
    forall q | q in t.tab ensures t.tab[q] / PAGE in pm.taken {
      KernelTaken(canonical, kernelPage, kernelPages, pm.nrPages, t.tab[q] / PAGE);
    }
    forall k: nat {:trigger FrameAt(barenaBase, k)} | k < barenaMax
      ensures FrameAt(barenaBase, k) / PAGE in pm.taken && FrameAt(barenaBase, k) !in t.tab.Values
    {
      assert InKernel(FrameAt(barenaBase, k), kernelPage, kernelPages);
      KernelTaken(canonical, kernelPage, kernelPages, pm.nrPages, FrameAt(barenaBase, k) / PAGE);
    }
    ok := MapFirmware(t, pm, hugePageSupport, barenaBase, barenaMax, canonical, memoryMap);
    if ok {
      forall id: nat
        ensures Free(pm.taken, pm.nrPages, id) <==>
          LeftFree(UsableAt(memoryMap, 0, |memoryMap|, id * PAGE), kernelPage, kernelPages, pm.nrPages, t.tab, id)
      {
        FreeAtLast(memoryMap, canonical, kernelPage, kernelPages, t.tab, pm.taken, pm.reserved, id);
      }
    }
  }
}
