/** KrInitDirectMap as a whole (Kernel/Source/Memory/PrivateVMM/DmapInit.h): the finished direct
    map is exact. */
module DirectMapInit {
  import opened Machine
  import opened Pte
  import opened PageTable
  import opened Physmem
  import opened Descriptors
  import opened Vmm
  import opened DirectWindow
  import opened DirectMap

  /** No root slot of the window is in use. */
  ghost predicate WindowUnused(fr: Frames, root: nat)
    requires root in fr && |fr[root]| == 512
  {
    forall i | 256 <= i <= 510 :: !fr[root][i].present
  }

  /** The leaf that page `n` is to be mapped by: the largest one that fits into its region. */
  ghost function PlanFor(regions: seq<Descriptor>, hugePageSupport: bool, n: nat): nat {
    if exists i :: 0 <= i < |regions| && OnPage(regions[i], n) then
      var i :| 0 <= i < |regions| && OnPage(regions[i], n);
      LargestIn(regions[i], hugePageSupport, n)
    else 3
  }

  function LargestIn(d: Descriptor, hugePageSupport: bool, n: nat): (level: nat)
    ensures 1 <= level <= 3
  {
    LargestLeaf(hugePageSupport, d.physicalBase / PAGE, d.physicalBase / PAGE + d.pageCount, n)
  }

  lemma PlanHolds(regions: seq<Descriptor>, hugePageSupport: bool, i: nat, n: nat)
    requires Targets(regions) && i < |regions| && OnPage(regions[i], n)
    ensures PlanFor(regions, hugePageSupport, n) == LargestIn(regions[i], hugePageSupport, n)
  {
    forall j | 0 <= j < |regions| && OnPage(regions[j], n) ensures j == i {
      RegionPagesMember(regions[i], n);
      RegionPagesMember(regions[j], n);
      assert n in RegionPages(regions[i]) && n in RegionPages(regions[j]);
    }
  }

  /** The direct map is built on tables whose window is unused. On success every byte of a
      canonical or ACPI NVS region is translated to itself, for the kernel's data and by the largest leaf
      that fits into the region; every other address of the window is translated to nothing, all other
      translations are as before, the counters account for every page, and every page acquired is a table
      that stays reserved. */
  method InitDirectMap(t: Tables, pm: PageManager, hugePageSupport: bool, barenaBase: nat, barenaMax: nat,
                       canonical: seq<Descriptor>, memoryMap: seq<Descriptor>)
    returns (ok: bool, huge: nat, large: nat, small: nat)
    requires t.Valid() && pm.Valid() && FramesTaken(t.tab, pm.taken) && barenaBase % PAGE == 0
    requires pm.nrPages <= ADDRESSED
    requires forall k: nat {:trigger FrameAt(barenaBase, k)} | k < barenaMax ::
      FrameAt(barenaBase, k) / PAGE in pm.taken && FrameAt(barenaBase, k) !in t.tab.Values
    requires WindowUnused(t.frames, t.root) && |memoryMap| < 0x1_0000_0000
    requires Targets(DirectMapped(canonical, memoryMap, |memoryMap|))
    modifies t`frames, t`tab, pm, pm.primary, pm.advisory
    ensures ok ==>
      t.Valid() && pm.Valid() && FramesTaken(t.tab, pm.taken) && SameOutside(old(t.frames), t.frames, t.root)
    ensures ok ==>
      && Direct(t.frames, t.root, DirectMapped(canonical, memoryMap, |memoryMap|), !t.initialized || t.noExecuteSupport)
      && BySizes(t.frames, t.root, DirectMapped(canonical, memoryMap, |memoryMap|), hugePageSupport)
    ensures ok ==> TablesKept(old(pm.taken), t.tab, pm.taken, pm.reserved)
    ensures !ok ==> barenaMax == 0 || pm.Dry(INVALID_PAGE)
    ensures ok ==>
      huge * 0x4000_0000 + large * 0x20_0000 + small * 0x1000 ==
      TotalPageCount(DirectMapped(canonical, memoryMap, |memoryMap|)) * PAGE
  {
    ok, huge, large, small := false, 0, 0, 0;
    ghost var regions := DirectMapped(canonical, memoryMap, |memoryMap|);
    if barenaMax == 0 {
      return;
    }
    ghost var fr0 := t.frames;
    ghost var sizes := (n: nat) => PlanFor(regions, hugePageSupport, n);
    UnusedWindowEmpty(t.frames, t.root, t.tab, t.NxAllowed(), sizes);
    var b := new Builder(t, pm, hugePageSupport, barenaBase, barenaMax, sizes);
    SameWalksExact(fr0, t.frames, t.root, {}, t.NxAllowed(), sizes);
    AllPlanned(b, regions);
    CanonicalFirst(canonical, memoryMap, |memoryMap|);
    ghost var places := PlacesOf(canonical, memoryMap, regions);
    ok := b.MapAll(canonical, memoryMap, regions, places, fr0);
    if ok {
      AllMapped(b.mapped, regions);
      ExactCoverage(t.frames, t.root, regions, t.NxAllowed(), hugePageSupport, sizes);
      huge, large, small := b.hugePages, b.largePages, b.smallPages;
    }
  }

  /** Every byte of the regions translates to itself, for the kernel's data, and every other byte of the
      window to nothing. */
  ghost predicate Direct(fr: Frames, root: nat, regions: seq<Descriptor>, nxAllowed: bool) {
    forall p: nat | p < WINDOW_PAGES * PAGE ::
      && Translate(fr, root, DMAP_BASE + p) == (if Covered(regions, p) then Some(p) else None)
      && (Covered(regions, p) ==> KernelData(Lookup(fr, root, DMAP_BASE + p), nxAllowed))
  }

  /** Every byte of a region is mapped by the largest leaf that fits into the region. */
  ghost predicate BySizes(fr: Frames, root: nat, regions: seq<Descriptor>, hugePageSupport: bool) {
    forall d, p: nat {:trigger d.Covers(p)} | d in regions && d.Covers(p) ::
      BySize(Lookup(fr, root, DMAP_BASE + p), LargestIn(d, hugePageSupport, p / PAGE))
  }

  lemma AllMapped(mapped: set<nat>, regions: seq<Descriptor>)
    requires Targets(regions) && Collected(mapped, regions, |regions|)
    ensures mapped == AllPages(regions) && |mapped| == TotalPageCount(regions)
  {
    PageCounts(regions, |regions|);
    assert regions[..|regions|] == regions;
  }

  predicate BySize(at: Arrival, level: nat) {
    at.Leaf? && at.level == level
  }

  lemma AllPlanned(b: Builder, regions: seq<Descriptor>)
    requires Targets(regions) && forall n: nat :: b.sizes(n) == PlanFor(regions, b.hugePageSupport, n)
    ensures b.Planned(regions)
  {
    forall i: nat | i < |regions| ensures b.EntryPlanned(regions, i) {
      forall m: nat | OnPage(regions[i], m) ensures b.sizes(m) == LargestIn(regions[i], b.hugePageSupport, m) {
        PlanHolds(regions, b.hugePageSupport, i, m);
      }
    }
  }

  lemma UnusedWindowEmpty(fr: Frames, root: nat, tab: map<Prefix, nat>, nxAllowed: bool, sizes: nat -> nat)
    requires Tree(fr, root, tab) && WindowUnused(fr, root)
    ensures Exact(fr, root, {}, nxAllowed, sizes) && NoEmptyTable(tab, {}) && Passable(fr, root, nxAllowed)
  {
    forall n: nat | n < WINDOW_PAGES
      ensures Lookup(fr, root, VirtualOf(n)) == Fault
    {
      WindowLinear(n);
      var va := VirtualOf(n);
      assert SlotOf(va, 0) == At(Root, Index(va, 0));
      assert Walk(fr, root, Root) == Table(root, AllRights);
      assert Walk(fr, root, SlotOf(va, 0)) == Fault;
      assert Walk(fr, root, SlotOf(va, 1)) == Fault;
      assert Walk(fr, root, SlotOf(va, 2)) == Fault;
    }
    forall q | q in tab
      ensures q.At? ==> !(256 <= TopIndex(q) <= 510)
    {
      TablesAvoidWindow(fr, root, tab, q);
    }
    forall q: Prefix | q.At? && 256 <= TopIndex(q) <= 510 ensures !Walk(fr, root, q).Table? {
      WalkReachesTable(fr, root, tab, q);
    }
  }

  lemma {:induction false} TablesAvoidWindow(fr: Frames, root: nat, tab: map<Prefix, nat>, q: Prefix)
    requires Tree(fr, root, tab) && WindowUnused(fr, root) && q in tab
    ensures q.At? ==> !(256 <= TopIndex(q) <= 510)
  {
    if q.At? && q.up.At? {
      TablesAvoidWindow(fr, root, tab, q.up);
    }
  }

  // ---- From sets of pages to addresses and counts ----

  lemma {:induction false} PagesOfMember(regions: seq<Descriptor>, k: nat, n: nat)
    requires k <= |regions|
    ensures n in PagesOf(regions, k) <==> exists i {:trigger regions[i]} :: 0 <= i < k && OnPage(regions[i], n)
  {
    if k > 0 {
      PagesOfMember(regions, k - 1, n);
      RegionPagesMember(regions[k - 1], n);
      assert n in PagesOf(regions, k) <==> n in PagesOf(regions, k - 1) || OnPage(regions[k - 1], n);
      OneMoreRegion(regions, k, n);
    }
  }

  lemma OneMoreRegion(regions: seq<Descriptor>, k: nat, n: nat)
    requires 0 < k <= |regions|
    ensures (exists i {:trigger regions[i]} :: 0 <= i < k && OnPage(regions[i], n)) <==>
      (exists i {:trigger regions[i]} :: 0 <= i < k - 1 && OnPage(regions[i], n)) || OnPage(regions[k - 1], n)
  {
  }

  lemma RegionPagesMember(d: Descriptor, n: nat)
    ensures n in RegionPages(d) <==> OnPage(d, n)
  {
  }

  lemma PageCovered(d: Descriptor, p: nat)
    requires d.physicalBase % PAGE == 0
    ensures OnPage(d, p / PAGE) <==> d.Covers(p)
  {
  }

  lemma CoveredPage(regions: seq<Descriptor>, p: nat)
    requires Targets(regions)
    ensures Covered(regions, p) <==> p / PAGE in AllPages(regions)
  {
    PagesOfMember(regions, |regions|, p / PAGE);
    forall i | 0 <= i < |regions| ensures OnPage(regions[i], p / PAGE) <==> regions[i].Covers(p) {
      PageCovered(regions[i], p);
    }
  }

  lemma ExactCoverage(fr: Frames, root: nat, regions: seq<Descriptor>, nxAllowed: bool, hugePageSupport: bool,
        sizes: nat -> nat)
    requires Exact(fr, root, AllPages(regions), nxAllowed, sizes) && Targets(regions)
    requires forall n: nat :: sizes(n) == PlanFor(regions, hugePageSupport, n)
    ensures Direct(fr, root, regions, nxAllowed) && BySizes(fr, root, regions, hugePageSupport)
  {
    forall p: nat | p < WINDOW_PAGES * PAGE
      ensures Translate(fr, root, DMAP_BASE + p) == if Covered(regions, p) then Some(p) else None
      ensures Covered(regions, p) ==> KernelData(Lookup(fr, root, DMAP_BASE + p), nxAllowed)
    {
      ExactTranslation(fr, root, AllPages(regions), nxAllowed, sizes, p);
      CoveredPage(regions, p);
    }
    forall d, p: nat | d in regions && d.Covers(p)
      ensures BySize(Lookup(fr, root, DMAP_BASE + p), LargestIn(d, hugePageSupport, p / PAGE))
    {
      ByteSize(fr, root, regions, nxAllowed, hugePageSupport, sizes, d, p);
    }
  }

  lemma ByteSize(fr: Frames, root: nat, regions: seq<Descriptor>, nxAllowed: bool, hugePageSupport: bool,
        sizes: nat -> nat, d: Descriptor, p: nat)
    requires Exact(fr, root, AllPages(regions), nxAllowed, sizes) && Targets(regions) && d in regions && d.Covers(p)
    requires sizes(p / PAGE) == PlanFor(regions, hugePageSupport, p / PAGE)
    ensures BySize(Lookup(fr, root, DMAP_BASE + p), LargestIn(d, hugePageSupport, p / PAGE))
  {
    var i :| 0 <= i < |regions| && regions[i] == d;
    PageCovered(d, p);
    PlanHolds(regions, hugePageSupport, i, p / PAGE);
    CoveredPage(regions, p);
    ExactTranslation(fr, root, AllPages(regions), nxAllowed, sizes, p);
  }

  lemma {:induction false} PageCounts(regions: seq<Descriptor>, n: nat)
    requires Targets(regions) && n <= |regions|
    ensures |PagesOf(regions, n)| == TotalPageCount(regions[..n])
  {
    if n > 0 {
      PageCounts(regions, n - 1);
      TargetApart(regions, n - 1, n - 1);
      assert regions[..n][..n - 1] == regions[..n - 1];
    }
  }
}
