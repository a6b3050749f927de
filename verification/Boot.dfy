/** From the firmware map to the page manager and the direct map: what the coalesced map gives to
    the two initializations that read it. */
module Boot {
  import opened Machine
  import opened Descriptors
  import opened Canonical
  import opened PageSearch
  import opened Physmem
  import opened PageTable
  import opened Vmm
  import opened DirectWindow
  import opened DirectMap
  import opened DirectMapInit

  /** Descriptors that the direct map shows. */
  predicate IsMapped(kind: nat) {
    IsUsable(kind) || kind == ACPI_MEMORY_NVS
  }

  ghost predicate MappedAt(s: seq<Descriptor>, address: nat) {
    exists k {:trigger s[k]} :: 0 <= k < |s| && IsMapped(s[k].kind) && s[k].Covers(address)
  }

  /** Page-aligned descriptors that end below the end of the direct-map window. */
  ghost predicate Mappable(s: seq<Descriptor>) {
    forall k {:trigger s[k]} | 0 <= k < |s| && IsMapped(s[k].kind) ::
      s[k].physicalBase % PAGE == 0 && s[k].End() <= WINDOW_PAGES * PAGE
  }

  lemma EntryInside(s: seq<Descriptor>, c: seq<Descriptor>, e: nat, address: nat) returns (k: nat)
    requires CanonicalOf(s, c) && e < |c| && c[e].Covers(address)
    ensures k < |s| && IsUsable(s[k].kind) && s[k].Covers(address)
  {
    assert Covered(c, address);
    k :| k < |s| && IsUsable(s[k].kind) && s[k].Covers(address);
  }

  /** The canonical map fits below the page count that initialization computes. */
  lemma CanonicalFits(s: seq<Descriptor>, c: seq<Descriptor>)
    requires CanonicalOf(s, c)
    ensures FitBelow(c, PageTotal(s))
  {
    forall d | d in c ensures d.physicalBase / PAGE + d.pageCount <= PageTotal(s) {
      var e :| 0 <= e < |c| && c[e] == d;
      var k := EntryInside(s, c, e, d.End() - 1);
      HighestBounds(s, k);
      FloorBelowCeiling(d, Highest(s));
    }
  }

  lemma FloorBelowCeiling(d: Descriptor, highest: nat)
    requires d.End() <= highest
    ensures d.physicalBase / PAGE + d.pageCount <= (highest + PAGE - 1) / PAGE
  {
  }

  /** An entry starts where a usable descriptor starts. */
  lemma EntryStart(s: seq<Descriptor>, c: seq<Descriptor>, e: nat) returns (k: nat)
    requires CanonicalOf(s, c) && e < |c|
    ensures k < |s| && IsUsable(s[k].kind) && s[k].physicalBase == c[e].physicalBase
  {
    var base := c[e].physicalBase;
    k := EntryInside(s, c, e, base);
    if s[k].physicalBase < base {
      assert s[k].Covers(base - 1);
      assert UsableAt(s, 0, |s|, base - 1);
      assert Covered(c, base - 1);
      NotBeforeEntry(c, e);
    }
  }

  lemma NotBeforeEntry(c: seq<Descriptor>, e: nat)
    requires Maximal(c) && e < |c| && c[e].physicalBase > 0
    ensures !Covered(c, c[e].physicalBase - 1)
  {
    forall k | 0 <= k < |c| ensures !c[k].Covers(c[e].physicalBase - 1) {
      assert k < e ==> c[k].End() < c[e].physicalBase;
      assert k > e ==> c[e].End() < c[k].physicalBase;
    }
  }

  lemma EntryMappable(s: seq<Descriptor>, c: seq<Descriptor>, e: nat)
    requires CanonicalOf(s, c) && Mappable(s) && e < |c|
    ensures c[e].physicalBase % PAGE == 0 && c[e].physicalBase / PAGE + c[e].pageCount <= WINDOW_PAGES
  {
    var k := EntryStart(s, c, e);
    var last := EntryInside(s, c, e, c[e].End() - 1);
  }

  /** Regions that share no address share no page. */
  lemma ApartPages(d: Descriptor, e: Descriptor)
    requires d.physicalBase % PAGE == 0 && e.physicalBase % PAGE == 0
    requires forall address: nat {:trigger d.Covers(address)} {:trigger e.Covers(address)} ::
      !(d.Covers(address) && e.Covers(address))
    ensures RegionPages(d) !! RegionPages(e)
  {
    forall n | n in RegionPages(d) ensures n !in RegionPages(e) {
      RegionPagesMember(d, n);
      RegionPagesMember(e, n);
      PageCovered(d, n * PAGE);
      PageCovered(e, n * PAGE);
    }
  }

  lemma CanonicalTargets(s: seq<Descriptor>, c: seq<Descriptor>)
    requires CanonicalOf(s, c) && Mappable(s)
    ensures Targets(c)
  {
    forall e | 0 <= e < |c|
      ensures c[e].physicalBase % PAGE == 0 && c[e].physicalBase / PAGE + c[e].pageCount <= WINDOW_PAGES
    {
      EntryMappable(s, c, e);
    }
    forall i, j | 0 <= i < j < |c| ensures RegionPages(c[i]) !! RegionPages(c[j]) {
      ApartPages(c[i], c[j]);
    }
  }

  /** The direct map's list holds the canonical entries and the NVS descriptors of the firmware map. */
  lemma {:induction false} ListMember(s: seq<Descriptor>, c: seq<Descriptor>, n: nat, d: Descriptor)
    requires n <= |s|
    ensures d in DirectMapped(c, s, n) <==> d in c || exists k {:trigger s[k]} ::
      0 <= k < n && s[k] == d && d.kind == ACPI_MEMORY_NVS
  {
    if n > 0 { ListMember(s, c, n - 1, d); }
  }

  lemma ListApart(s: seq<Descriptor>, c: seq<Descriptor>, n: nat, d: Descriptor, address: nat)
    requires Firmware(s) && CanonicalOf(s, c) && n < |s| && s[n].kind == ACPI_MEMORY_NVS
    requires d in DirectMapped(c, s, n) && d.Covers(address)
    ensures !s[n].Covers(address)
  {
    if d in c {
      var e :| 0 <= e < |c| && c[e] == d;
      var k := EntryInside(s, c, e, address);
      assert s[k].End() <= s[n].physicalBase || s[n].End() <= s[k].physicalBase || k == n;
    } else {
      ListMember(s, c, n, d);
      var k :| 0 <= k < n && s[k] == d && d.kind == ACPI_MEMORY_NVS;
      assert s[k].End() <= s[n].physicalBase;
    }
  }

  lemma ListAligned(s: seq<Descriptor>, c: seq<Descriptor>, n: nat, d: Descriptor)
    requires CanonicalOf(s, c) && Mappable(s) && n <= |s| && d in DirectMapped(c, s, n)
    ensures d.physicalBase % PAGE == 0
  {
    if d in c {
      var e :| 0 <= e < |c| && c[e] == d;
      EntryMappable(s, c, e);
    } else {
      ListMember(s, c, n, d);
      var k :| 0 <= k < n && s[k] == d && d.kind == ACPI_MEMORY_NVS;
    }
  }

  lemma NvsApart(s: seq<Descriptor>, c: seq<Descriptor>, n: nat, d: Descriptor)
    requires Firmware(s) && CanonicalOf(s, c) && Mappable(s) && n < |s| && s[n].kind == ACPI_MEMORY_NVS
    requires d in DirectMapped(c, s, n)
    ensures RegionPages(d) !! RegionPages(s[n])
  {
    ListAligned(s, c, n, d);
    forall address: nat ensures !(d.Covers(address) && s[n].Covers(address)) {
      if d.Covers(address) { ListApart(s, c, n, d, address); }
    }
    ApartPages(d, s[n]);
  }

  /** The list handed to the direct map meets the direct map's needs. */
  lemma {:induction false} FirmwareTargets(s: seq<Descriptor>, c: seq<Descriptor>, n: nat)
    requires Firmware(s) && CanonicalOf(s, c) && Mappable(s) && n <= |s|
    ensures Targets(DirectMapped(c, s, n))
  {
    if n == 0 {
      CanonicalTargets(s, c);
    } else {
      FirmwareTargets(s, c, n - 1);
      if s[n - 1].kind == ACPI_MEMORY_NVS {
        var before := DirectMapped(c, s, n - 1);
        NvsFresh(s, c, n - 1, before);
        OneMoreTarget(before, s[n - 1]);
      }
    }
  }

  lemma NvsFresh(s: seq<Descriptor>, c: seq<Descriptor>, k: nat, before: seq<Descriptor>)
    requires Firmware(s) && CanonicalOf(s, c) && Mappable(s) && k < |s| && s[k].kind == ACPI_MEMORY_NVS
    requires before == DirectMapped(c, s, k)
    ensures forall i {:trigger before[i]} | 0 <= i < |before| :: RegionPages(before[i]) !! RegionPages(s[k])
  {
    forall i | 0 <= i < |before| ensures RegionPages(before[i]) !! RegionPages(s[k]) {
      NvsApart(s, c, k, before[i]);
    }
  }

  lemma OneMoreTarget(before: seq<Descriptor>, d: Descriptor)
    requires Targets(before) && d.physicalBase % PAGE == 0 && d.End() <= WINDOW_PAGES * PAGE
    requires forall i {:trigger before[i]} | 0 <= i < |before| :: RegionPages(before[i]) !! RegionPages(d)
    ensures Targets(before + [d])
  {
  }

  lemma FirmwareCovered(s: seq<Descriptor>, c: seq<Descriptor>, address: nat)
    requires CanonicalOf(s, c)
    ensures Covered(DirectMapped(c, s, |s|), address) <==> MappedAt(s, address)
  {
    assert Covered(c, address) <==> UsableAt(s, 0, |s|, address);
    forall d ensures d in DirectMapped(c, s, |s|) <==>
      d in c || exists k {:trigger s[k]} :: 0 <= k < |s| && s[k] == d && d.kind == ACPI_MEMORY_NVS
    {
      ListMember(s, c, |s|, d);
    }
    if MappedAt(s, address) {
      var k :| 0 <= k < |s| && IsMapped(s[k].kind) && s[k].Covers(address);
      if s[k].kind == ACPI_MEMORY_NVS {
        assert s[k] in DirectMapped(c, s, |s|);
      } else {
        var d :| d in c && d.Covers(address);
        assert d in DirectMapped(c, s, |s|);
      }
    }
  }

  /** Which pages are free after initialization, by the firmware map alone. */
  lemma InitiallyFreeMeaning(s: seq<Descriptor>, c: seq<Descriptor>, kernelPage: nat, kernelPages: nat, id: nat)
    requires Firmware(s) && CanonicalOf(s, c) && Mappable(s)
    ensures Free(ClosedPages(c, kernelPage, kernelPages, PageTotal(s)), PageTotal(s), id) <==>
      && UsableAt(s, 0, |s|, id * PAGE)
      && !(kernelPage <= id < kernelPage + kernelPages <= PageTotal(s))
      && !(id < 256 <= PageTotal(s))
  {
    ClosedPagesMeaning(c, kernelPage, kernelPages, PageTotal(s));
    CanonicalFits(s, c);
    assert InRegions(c, id) <==> Covered(c, id * PAGE) by {
      forall d | d in c ensures OnPage(d, id) <==> d.Covers(id * PAGE) {
        var e :| 0 <= e < |c| && c[e] == d;
        EntryMappable(s, c, e);
        PageCovered(d, id * PAGE);
      }
    }
    assert InRegions(c, id) ==> id < PageTotal(s);
  }

  /** The direct map, by the firmware map alone. */
  method MapFirmware(t: Tables, pm: PageManager, hugePageSupport: bool, barenaBase: nat, barenaMax: nat,
                     canonical: seq<Descriptor>, memoryMap: seq<Descriptor>)
    returns (ok: bool)
    requires t.Valid() && pm.Valid() && FramesTaken(t.tab, pm.taken) && barenaBase % PAGE == 0
    requires pm.nrPages <= ADDRESSED
    requires forall k: nat {:trigger FrameAt(barenaBase, k)} | k < barenaMax ::
      FrameAt(barenaBase, k) / PAGE in pm.taken && FrameAt(barenaBase, k) !in t.tab.Values
    requires WindowUnused(t.frames, t.root) && |memoryMap| < 0x1_0000_0000
    requires Firmware(memoryMap) && Mappable(memoryMap) && CanonicalOf(memoryMap, canonical)
    modifies t`frames, t`tab, pm, pm.primary, pm.advisory
    ensures ok ==> t.Valid() && pm.Valid() && SameOutside(old(t.frames), t.frames, t.root)
    ensures ok ==> FramesTaken(t.tab, pm.taken) && TablesKept(old(pm.taken), t.tab, pm.taken, pm.reserved)
    ensures !ok ==> barenaMax == 0 || pm.Dry(INVALID_PAGE)
    ensures ok ==> forall p: nat | p < WINDOW_PAGES * PAGE ::
      Translate(t.frames, t.root, DMAP_BASE + p) == if MappedAt(memoryMap, p) then Some(p) else None
    ensures ok ==> forall p: nat | p < WINDOW_PAGES * PAGE && MappedAt(memoryMap, p) ::
      KernelData(Lookup(t.frames, t.root, DMAP_BASE + p), !t.initialized || t.noExecuteSupport)
  {
    FirmwareTargets(memoryMap, canonical, |memoryMap|);
    var huge, large, small;
    ok, huge, large, small := InitDirectMap(t, pm, hugePageSupport, barenaBase, barenaMax, canonical, memoryMap);
    if ok {
      forall p: nat | p < WINDOW_PAGES * PAGE
        ensures Translate(t.frames, t.root, DMAP_BASE + p) == if MappedAt(memoryMap, p) then Some(p) else None
        ensures MappedAt(memoryMap, p) ==>
          KernelData(Lookup(t.frames, t.root, DMAP_BASE + p), !t.initialized || t.noExecuteSupport)
      {
        FirmwareCovered(memoryMap, canonical, p);
      }
    }
  }
}
