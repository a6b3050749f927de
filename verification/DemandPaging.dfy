/** What whole runs of static mapping and demand paging guarantee. */
module DemandPaging {
  import opened Machine
  import opened Pte
  import opened PageTable
  import opened Physmem
  import opened Vmm
  import Regions

  /** The number of the linear page `va` lies on. */
  function PageNumber(va: nat): nat {
    va % LINEAR / PAGE
  }

  lemma PageNumberBase(n: nat)
    requires n < LINEAR / PAGE
    ensures PageNumber(n * PAGE) == n
  {
  }

  /** `demand` gives the physical page behind every demand-paged linear page: the tables lead
      there, no two of them share a page, none of them shares one with a table, all are taken. */
  ghost predicate Isolated(fr: Frames, root: nat, tab: map<Prefix, nat>, taken: set<nat>, demand: map<nat, nat>) {
    && (forall n {:trigger n in demand} | n in demand ::
          && n < LINEAR / PAGE && demand[n] in taken && demand[n] * PAGE !in tab.Values
          && MapsTo(Lookup(fr, root, n * PAGE), demand[n]))
    && (forall m, n {:trigger demand[m], demand[n]} | m in demand && n in demand && demand[m] == demand[n] :: m == n)
  }

  predicate MapsTo(at: Arrival, page: nat) {
    at.Leaf? && at.level == 3 && at.entry.address == page * PAGE
  }

  lemma ServedIsolated(root: nat, fr0: Frames, tab0: map<Prefix, nat>, taken0: set<nat>,
                       fr1: Frames, tab1: map<Prefix, nat>, taken1: set<nat>, va: nat, page: nat, demand: map<nat, nat>)
    requires Isolated(fr0, root, tab0, taken0, demand) && Served(root, fr0, tab0, taken0, fr1, tab1, taken1, va, page)
    ensures Isolated(fr1, root, tab1, taken1, demand[PageNumber(va) := page])
  {
    var n0, demand1 := PageNumber(va), demand[PageNumber(va) := page];
    PageNumberBase(n0);
    forall n | n in demand && n != n0
      ensures Lookup(fr1, root, n * PAGE) == Lookup(fr0, root, n * PAGE) && demand[n] != page
      ensures demand[n] * PAGE !in tab1.Values
    {
      PageNumberBase(n);
      TakenIsNoTable(tab0, tab1, taken0, demand[n]);
    }
  }

  /** A taken page that is no table does not become one. */
  lemma TakenIsNoTable(tab0: map<Prefix, nat>, tab1: map<Prefix, nat>, taken0: set<nat>, page: nat)
    requires OnlyFreshTables(tab0, tab1, taken0) && page in taken0 && page * PAGE !in tab0.Values
    ensures page * PAGE !in tab1.Values
  {
    forall q | q in tab1
      ensures tab1[q] != page * PAGE
    {
      assert (page * PAGE) / PAGE == page;
      assert q in tab0 ==> tab0[q] in tab0.Values;
    }
  }

  /** From one moment to a later one: known demand pages keep their frames, only new ones gain a
      translation, and nothing loses one. */
  ghost predicate Advanced(root: nat, fr0: Frames, demand0: map<nat, nat>, fr1: Frames, demand1: map<nat, nat>) {
    && SamePaths(fr0, fr1, root)
    && (forall n {:trigger n in demand0} | n in demand0 :: n in demand1 && demand1[n] == demand0[n])
    && (forall va: nat {:trigger Lookup(fr1, root, va)} ::
          && (PageNumber(va) !in demand1 || PageNumber(va) in demand0 ==>
              Lookup(fr1, root, va) == Lookup(fr0, root, va))
          && (!Lookup(fr0, root, va).Fault? ==> !Lookup(fr1, root, va).Fault?))
  }

  lemma ServedAdvances(root: nat, fr0: Frames, tab0: map<Prefix, nat>, taken0: set<nat>,
                       fr1: Frames, tab1: map<Prefix, nat>, taken1: set<nat>, va: nat, page: nat, demand: map<nat, nat>)
    requires Isolated(fr0, root, tab0, taken0, demand) && Served(root, fr0, tab0, taken0, fr1, tab1, taken1, va, page)
    requires Lookup(fr0, root, va).Fault?
    ensures PageNumber(va) !in demand && Advanced(root, fr0, demand, fr1, demand[PageNumber(va) := page])
  {
    var n := PageNumber(va);
    PageNumberBase(n);
    SameSlot(va, n * PAGE, 3);
    assert Lookup(fr0, root, va) == Lookup(fr0, root, n * PAGE);
  }

  lemma AdvancedTwice(root: nat, fr0: Frames, demand0: map<nat, nat>, fr1: Frames, demand1: map<nat, nat>,
        fr2: Frames, demand2: map<nat, nat>)
    requires Advanced(root, fr0, demand0, fr1, demand1) && Advanced(root, fr1, demand1, fr2, demand2)
    ensures Advanced(root, fr0, demand0, fr2, demand2)
  {
  }

  /** A region that is served on demand, and holds an address of page `n`, asks for such a page. */
  ghost predicate AskedFor(nodes: seq<Regions.Region>, n: nat, at: Arrival, path: Rights, nxAllowed: bool) {
    exists va: nat :: PageNumber(va) == n && ForRegion(nodes, va, at, path, nxAllowed)
  }

  /** The pages served from one moment to a later one are as their regions ask for it, as far as the tables
      that were there at the start let that take effect. */
  ghost predicate Provided(root: nat, fr0: Frames, demand0: map<nat, nat>, fr1: Frames, demand1: map<nat, nat>,
                           nodes: seq<Regions.Region>, nxAllowed: bool) {
    forall n: nat {:trigger n in demand1} | n in demand1 && n !in demand0 ::
      && n < LINEAR / PAGE
      && AskedFor(nodes, n, Lookup(fr1, root, n * PAGE), PathRights(fr0, root, n * PAGE, 3), nxAllowed)
  }

  lemma ServedProvides(root: nat, fr0: Frames, tab0: map<Prefix, nat>, taken0: set<nat>, fr1: Frames,
        tab1: map<Prefix, nat>, taken1: set<nat>, va: nat, page: nat, demand: map<nat, nat>,
        nodes: seq<Regions.Region>, nxAllowed: bool)
    requires Served(root, fr0, tab0, taken0, fr1, tab1, taken1, va, page)
    requires ForRegion(nodes, va, Lookup(fr1, root, va), PathRights(fr0, root, va, 3), nxAllowed)
    ensures Provided(root, fr0, demand, fr1, demand[PageNumber(va) := page], nodes, nxAllowed)
  {
    var n := PageNumber(va);
    PageNumberBase(n);
    SamePagePath(fr0, root, va, n * PAGE);
    assert Lookup(fr1, root, n * PAGE) == Lookup(fr1, root, va);
  }

  lemma ProvidedTwice(root: nat, fr0: Frames, demand0: map<nat, nat>, fr1: Frames, demand1: map<nat, nat>,
        fr2: Frames, demand2: map<nat, nat>, nodes: seq<Regions.Region>, nxAllowed: bool)
    requires Advanced(root, fr0, demand0, fr1, demand1) && Provided(root, fr0, demand0, fr1, demand1, nodes, nxAllowed)
    requires Advanced(root, fr1, demand1, fr2, demand2) && Provided(root, fr1, demand1, fr2, demand2, nodes, nxAllowed)
    ensures Provided(root, fr0, demand0, fr2, demand2, nodes, nxAllowed)
  {
    forall n: nat | n in demand2 && n !in demand0
      ensures n < LINEAR / PAGE
      ensures AskedFor(nodes, n, Lookup(fr2, root, n * PAGE), PathRights(fr0, root, n * PAGE, 3), nxAllowed)
    {
      if n in demand1 {
        PageNumberBase(n);
        assert Lookup(fr2, root, n * PAGE) == Lookup(fr1, root, n * PAGE);
      } else {
        assert PathRights(fr1, root, n * PAGE, 3) == PathRights(fr0, root, n * PAGE, 3);
      }
    }
  }

  /** So a store to a page that was not there at the start succeeds in the end, and user mode is kept out,
      if all regions on the page are writable and no table that was there forbids it. */
  lemma StoreSucceeds(root: nat, fr0: Frames, demand0: map<nat, nat>, fr1: Frames, demand1: map<nat, nat>,
        nodes: seq<Regions.Region>, nxAllowed: bool, va: nat)
    requires Advanced(root, fr0, demand0, fr1, demand1) && Provided(root, fr0, demand0, fr1, demand1, nodes, nxAllowed)
    requires Lookup(fr0, root, va).Fault? && !Lookup(fr1, root, va).Fault? && Unrestricted(fr0, root, va)
    requires forall node, vb: nat | node in nodes && node.start <= vb < node.end && PageNumber(vb) == PageNumber(va) ::
      node.flags.writable
    ensures Lookup(fr1, root, va).rights.writable && !Lookup(fr1, root, va).rights.user
  {
    var n := PageNumber(va);
    PageNumberBase(n);
    SamePagePath(fr0, root, va, n * PAGE);
    SameSlot(va, n * PAGE, 3);
    UnrestrictedPath(fr0, root, va);
    assert Lookup(fr1, root, n * PAGE) == Lookup(fr1, root, va);
    assert Lookup(fr0, root, n * PAGE) == Lookup(fr0, root, va);
    assert n in demand1 && n !in demand0;
  }

  /** Every page taken since is a table or the page of some demand-paged linear page. */
  ghost predicate Spent(taken0: set<nat>, tab: map<Prefix, nat>, taken: set<nat>, demand: map<nat, nat>) {
    forall p: nat {:trigger HoldsTable(tab, p)} | p in taken && p !in taken0 && p !in demand.Values ::
      HoldsTable(tab, p)
  }

  lemma ServedSpent(root: nat, fr0: Frames, tab0: map<Prefix, nat>, taken0: set<nat>,
                    fr1: Frames, tab1: map<Prefix, nat>, taken1: set<nat>, va: nat, page: nat, demand: map<nat, nat>)
    requires Served(root, fr0, tab0, taken0, fr1, tab1, taken1, va, page)
    ensures Spent(taken0, tab1, taken1, demand[PageNumber(va) := page])
  {
    var demand1 := demand[PageNumber(va) := page];
    assert demand1[PageNumber(va)] == page;
    forall p: nat | p in taken1 && p !in taken0 && p !in demand1.Values ensures HoldsTable(tab1, p) {
      assert p !in taken0 + {page};
    }
  }

  lemma SpentTwice(taken0: set<nat>, tab1: map<Prefix, nat>, taken1: set<nat>, demand1: map<nat, nat>,
        tab2: map<Prefix, nat>, taken2: set<nat>, demand2: map<nat, nat>)
    requires Spent(taken0, tab1, taken1, demand1) && Spent(taken1, tab2, taken2, demand2)
    requires OnlyFreshTables(tab1, tab2, taken1)
    requires forall n {:trigger n in demand1} | n in demand1 :: n in demand2 && demand2[n] == demand1[n]
    ensures Spent(taken0, tab2, taken2, demand2)
  {
    forall p: nat | p in taken2 && p !in taken0 && p !in demand2.Values ensures HoldsTable(tab2, p) {
      forall n | n in demand1 ensures demand1[n] != p { assert demand2[n] in demand2.Values; }
      if p in taken1 {
        assert HoldsTable(tab1, p);
        var q :| q in tab1 && tab1[q] == p * PAGE;
        assert q in tab2 && tab2[q] == tab1[q];
      }
    }
  }

  /** Why a fault at `va` is not served. */
  ghost predicate Refused(t: Tables, pm: PageManager, space: Regions.AddressSpace, va: nat)
    reads t, pm, space
  {
    !t.initialized || !Servable(space, va) || pm.NearlyDry()
  }

  /** One kernel access to data at `va`: the processor walks the tables and raises a fault when
      the walk finds nothing. */
  method Touch(t: Tables, cpu: PerCpu, pm: PageManager, space: Regions.AddressSpace, va: nat, ghost demand: map<nat,
        nat>)
    returns (ok: bool, ghost demand': map<nat, nat>)
    requires t.Valid() && pm.Valid() && FramesTaken(t.tab, pm.taken) && space.Valid() && !cpu.inPageFault
    requires pm.nrPages <= ADDRESSED
    requires Isolated(t.frames, t.root, t.tab, pm.taken, demand)
    modifies cpu, t`frames, t`tab, pm`acquiredPages, pm`acquireHint, pm`taken, pm.primary
    ensures t.Valid() && pm.Valid() && FramesTaken(t.tab, pm.taken) && !cpu.inPageFault
    ensures ok ==> Isolated(t.frames, t.root, t.tab, pm.taken, demand')
    ensures ok ==> Advanced(t.root, old(t.frames), demand, t.frames, demand') && !Lookup(t.frames, t.root, va).Fault?
    ensures ok ==> Provided(t.root, old(t.frames), demand, t.frames, demand', space.nodes, t.noExecuteSupport)
    ensures ok ==>
      Spent(old(pm.taken), t.tab, pm.taken, demand') && OnlyFreshTables(old(t.tab), t.tab, old(pm.taken))
    ensures !ok ==> Lookup(old(t.frames), t.root, va).Fault? && Refused(t, pm, space, va)
  {
    ok, demand' := true, demand;
    if Lookup(t.frames, t.root, va).Fault? {
      ghost var fr0, tab0, taken0 := t.frames, t.tab, pm.taken;
      var outcome, page := t.HandlePageFault(cpu, pm, space, va, false, false, false);
      ok := outcome == Handled;
      if ok {
        ServedIsolated(t.root, fr0, tab0, taken0, t.frames, t.tab, pm.taken, va, page, demand);
        ServedAdvances(t.root, fr0, tab0, taken0, t.frames, t.tab, pm.taken, va, page, demand);
        ServedProvides(t.root, fr0, tab0, taken0, t.frames, t.tab, pm.taken, va, page, demand, space.nodes,
          t.noExecuteSupport);
        ServedSpent(t.root, fr0, tab0, taken0, t.frames, t.tab, pm.taken, va, page, demand);
        demand' := demand[PageNumber(va) := page];
      }
    }
  }

  /** Any sequence of kernel accesses. Unless one of them meets a fault that cannot be served, all
      of them find a translation in the end, every demand-paged page is isolated, pages served
      earlier keep their frames, pages never faulted on translate as at the start, and no page is lost:
      every page taken is a demand-paged page or a table. */
  method Access(t: Tables, cpu: PerCpu, pm: PageManager, space: Regions.AddressSpace, accesses: seq<nat>,
        ghost demand: map<nat, nat>)
    returns (ok: bool, ghost demand': map<nat, nat>)
    requires t.Valid() && pm.Valid() && FramesTaken(t.tab, pm.taken) && space.Valid() && !cpu.inPageFault
    requires pm.nrPages <= ADDRESSED
    requires Isolated(t.frames, t.root, t.tab, pm.taken, demand)
    modifies cpu, t`frames, t`tab, pm`acquiredPages, pm`acquireHint, pm`taken, pm.primary
    ensures ok ==> t.Valid() && pm.Valid() && FramesTaken(t.tab, pm.taken)
    ensures ok ==> Isolated(t.frames, t.root, t.tab, pm.taken, demand')
    ensures ok ==> Advanced(t.root, old(t.frames), demand, t.frames, demand')
    ensures ok ==> Provided(t.root, old(t.frames), demand, t.frames, demand', space.nodes, t.noExecuteSupport)
    ensures ok ==> Spent(old(pm.taken), t.tab, pm.taken, demand')
    ensures ok ==> forall va | va in accesses :: !Lookup(t.frames, t.root, va).Fault?
    ensures !ok ==>
      exists va :: va in accesses && Lookup(old(t.frames), t.root, va).Fault? && Refused(t, pm, space, va)
  {
    ok, demand' := true, demand;
    ghost var start, taken0 := t.frames, pm.taken;
    for i := 0 to |accesses|
      invariant t.Valid() && pm.Valid() && FramesTaken(t.tab, pm.taken) && !cpu.inPageFault
      invariant Isolated(t.frames, t.root, t.tab, pm.taken, demand')
      invariant Advanced(t.root, start, demand, t.frames, demand')
      invariant Provided(t.root, start, demand, t.frames, demand', space.nodes, t.noExecuteSupport)
      invariant Spent(taken0, t.tab, pm.taken, demand') && AllFound(t.frames, t.root, accesses[..i])
    {
      ok, demand' := TouchNext(t, cpu, pm, space, accesses, i, start, taken0, demand, demand');
      if !ok {
        assert accesses[i] in accesses;
        return;
      }
    }
    assert accesses[..|accesses|] == accesses;
  }

  ghost predicate AllFound(fr: Frames, root: nat, accesses: seq<nat>) {
    forall va: nat {:trigger va in accesses} | va in accesses :: !Lookup(fr, root, va).Fault?
  }

  /** One more access of a run. */
  method TouchNext(t: Tables, cpu: PerCpu, pm: PageManager, space: Regions.AddressSpace, accesses: seq<nat>, i: nat,
                   ghost start: Frames, ghost taken0: set<nat>, ghost demand: map<nat, nat>,
                   ghost demand1: map<nat, nat>)
    returns (ok: bool, ghost demand2: map<nat, nat>)
    requires t.Valid() && pm.Valid() && FramesTaken(t.tab, pm.taken) && space.Valid() && !cpu.inPageFault
    requires pm.nrPages <= ADDRESSED
    requires Isolated(t.frames, t.root, t.tab, pm.taken, demand1) && Advanced(t.root, start, demand, t.frames, demand1)
    requires Provided(t.root, start, demand, t.frames, demand1, space.nodes, t.noExecuteSupport)
    requires i < |accesses| && AllFound(t.frames, t.root, accesses[..i]) && Spent(taken0, t.tab, pm.taken, demand1)
    modifies cpu, t`frames, t`tab, pm`acquiredPages, pm`acquireHint, pm`taken, pm.primary
    ensures t.Valid() && pm.Valid() && FramesTaken(t.tab, pm.taken) && !cpu.inPageFault
    ensures ok ==>
      Isolated(t.frames, t.root, t.tab, pm.taken, demand2) && Advanced(t.root, start, demand, t.frames, demand2)
    ensures ok ==> Provided(t.root, start, demand, t.frames, demand2, space.nodes, t.noExecuteSupport)
    ensures ok ==> AllFound(t.frames, t.root, accesses[..i + 1]) && Spent(taken0, t.tab, pm.taken, demand2)
    ensures !ok ==> Lookup(start, t.root, accesses[i]).Fault? && Refused(t, pm, space, accesses[i])
  {
    ghost var fr1, tab1, taken1, nodes, nxAllowed := t.frames, t.tab, pm.taken, space.nodes, t.noExecuteSupport;
    ok, demand2 := Touch(t, cpu, pm, space, accesses[i], demand1);
    if ok {
      assert space.nodes == nodes;
      NextTouched(t.root, start, demand, fr1, demand1, t.frames, demand2, nodes, nxAllowed, accesses, i);
      SpentTwice(taken0, tab1, taken1, demand1, t.tab, pm.taken, demand2);
    }
  }

  lemma NextTouched(root: nat, fr0: Frames, demand0: map<nat, nat>, fr1: Frames, demand1: map<nat, nat>,
        fr2: Frames, demand2: map<nat, nat>, nodes: seq<Regions.Region>, nxAllowed: bool, accesses: seq<nat>, i: nat)
    requires Advanced(root, fr0, demand0, fr1, demand1) && Provided(root, fr0, demand0, fr1, demand1, nodes, nxAllowed)
    requires Advanced(root, fr1, demand1, fr2, demand2) && Provided(root, fr1, demand1, fr2, demand2, nodes, nxAllowed)
    requires i < |accesses| && AllFound(fr1, root, accesses[..i]) && !Lookup(fr2, root, accesses[i]).Fault?
    ensures Advanced(root, fr0, demand0, fr2, demand2) && Provided(root, fr0, demand0, fr2, demand2, nodes, nxAllowed)
    ensures AllFound(fr2, root, accesses[..i + 1])
  {
    AdvancedTwice(root, fr0, demand0, fr1, demand1, fr2, demand2);
    ProvidedTwice(root, fr0, demand0, fr1, demand1, fr2, demand2, nodes, nxAllowed);
    StillFound(root, fr1, demand1, fr2, demand2, accesses, i);
  }

  lemma StillFound(root: nat, fr1: Frames, demand1: map<nat, nat>, fr2: Frames, demand2: map<nat, nat>,
        accesses: seq<nat>, i: nat)
    requires i < |accesses| && AllFound(fr1, root, accesses[..i]) && Advanced(root, fr1, demand1, fr2, demand2)
    requires !Lookup(fr2, root, accesses[i]).Fault?
    ensures AllFound(fr2, root, accesses[..i + 1])
  {
    assert accesses[..i + 1] == accesses[..i] + [accesses[i]];
  }

  /** VmMapStatic maps every byte of a region that was unmapped to its place after the physical
      start exactly when the region does not ask for 2 MiB pages: the loop then steps over
      2 MiB but writes one 4 KiB entry. */
  lemma StaticPromise(was: Frames, now: Frames, root: nat, region: Regions.Region, kernel: bool, paddrStart: nat,
        nxAllowed: bool)
    requires region.start < region.end && WholePages(region) && region.flags.caching < 3
    requires paddrStart + (region.end - region.start) <= ADDRESS_LIMIT
    requires region.start % LINEAR + (region.end - region.start) <= LINEAR && paddrStart % region.flags.PageSize() == 0
    requires MapsPrefix(was, now, root, region, region.end - region.start, kernel, paddrStart, nxAllowed)
    requires forall va: nat | region.start <= va < region.end :: Lookup(was, root, va).Fault?
    ensures (forall va: nat | region.start <= va < region.end ::
      Translate(now, root, va) == Some(paddrStart + (va - region.start)))
      <==> !region.flags.largePages
  {
    if region.flags.largePages {
      var va := region.start + PAGE;
      StepFits(region, 0);
      LinearOffset(region, PAGE);
      assert Translate(now, root, va) == None;
    } else {
      forall va: nat | region.start <= va < region.end
        ensures Translate(now, root, va) == Some(paddrStart + (va - region.start))
      {
        StaticTranslation(was, now, root, region, kernel, paddrStart, nxAllowed, va);
      }
    }
  }

  /** A 4 KiB region translates byte by byte, with the rights and the memory type that its flags ask for, as
      far as the tables that were there let them take effect. */
  lemma StaticTranslation(was: Frames, now: Frames, root: nat, region: Regions.Region, kernel: bool, paddrStart: nat,
        nxAllowed: bool, va: nat)
    requires region.start <= va < region.end && WholePages(region) && region.flags.caching < 3
    requires !region.flags.largePages
    requires paddrStart + (region.end - region.start) <= ADDRESS_LIMIT
    requires region.start % LINEAR + (region.end - region.start) <= LINEAR && paddrStart % PAGE == 0
    requires MapsPrefix(was, now, root, region, region.end - region.start, kernel, paddrStart, nxAllowed)
    ensures Translate(now, root, va) == Some(paddrStart + (va - region.start))
    ensures Conforms(Lookup(now, root, va), region.flags, kernel, PathRights(was, root, va, 3), nxAllowed)
  {
    var offset := va - region.start;
    LinearOffset(region, offset);
    OffsetSplit(region.start, offset, paddrStart);
    WrittenTranslation(was, now, root, region, kernel, paddrStart, nxAllowed, va, region.end - region.start);
  }

  /** A written page translates to its place. */
  lemma WrittenTranslation(was: Frames, now: Frames, root: nat, region: Regions.Region, kernel: bool, paddrStart: nat,
        nxAllowed: bool, va: nat, done: nat)
    requires region.flags.caching < 3 && Written(region, done, OffsetIn(region, va))
    requires var base := PageBase(region, paddrStart, OffsetIn(region, va)); base % PAGE == 0 && base < ADDRESS_LIMIT
    requires MapsPrefix(was, now, root, region, done, kernel, paddrStart, nxAllowed)
    ensures Translate(now, root, va) == Some(PageBase(region, paddrStart, OffsetIn(region, va)) + va % PAGE)
    ensures Conforms(Lookup(now, root, va), region.flags, kernel, PathRights(was, root, va, 3), nxAllowed)
  {
    var base := PageBase(region, paddrStart, OffsetIn(region, va));
    EncodedConforms(was, root, va, region.flags, kernel, base, nxAllowed);
    DecodeEncode(PtEntry, base, Flags(true, region.flags.writable, !kernel, kernel, !region.flags.executable),
      PatFor(region.flags.caching), nxAllowed);
  }

  lemma OffsetSplit(start: nat, offset: nat, paddrStart: nat)
    requires start % PAGE == 0 && paddrStart % PAGE == 0
    ensures (start + offset) % PAGE == offset % PAGE && (paddrStart + (offset - offset % PAGE)) % PAGE == 0
  {
  }

  /** Of a region of 2 MiB pages only the first 4 KiB of every 2 MiB are mapped. */
  lemma LargeRegion(was: Frames, now: Frames, root: nat, region: Regions.Region, kernel: bool, paddrStart: nat,
        nxAllowed: bool, va: nat)
    requires region.start <= va < region.end && WholePages(region) && region.flags.caching < 3
    requires region.flags.largePages && paddrStart + (region.end - region.start) <= ADDRESS_LIMIT
    requires region.start % LINEAR + (region.end - region.start) <= LINEAR && paddrStart % 0x20_0000 == 0
    requires MapsPrefix(was, now, root, region, region.end - region.start, kernel, paddrStart, nxAllowed)
    ensures Translate(now, root, va) ==
      if (va - region.start) % 0x20_0000 < 0x1000 then Some(paddrStart + (va - region.start))
      else Translate(was, root, va)
  {
    var offset := va - region.start;
    LinearOffset(region, offset);
    if offset % 0x20_0000 < 0x1000 {
      PageBaseAligned(region, paddrStart, offset);
      WrittenTranslation(was, now, root, region, kernel, paddrStart, nxAllowed, va, region.end - region.start);
      OffsetInLarge(region.start, offset);
    }
  }

  lemma OffsetInLarge(start: nat, offset: nat)
    requires start % 0x20_0000 == 0 && offset % 0x20_0000 < 0x1000
    ensures (start + offset) % PAGE == offset % 0x20_0000
  {
  }

  /** User mode reaches a page of another address space if and only if all its tables were there before
      the mapping, and let it through: the tables that are added do not. */
  lemma UserReaches(was: Frames, now: Frames, root: nat, region: Regions.Region, kernel: bool, paddrStart: nat,
        nxAllowed: bool, va: nat)
    requires region.start <= va < region.end && WholePages(region) && region.flags.caching < 3
    requires !region.flags.largePages
    requires paddrStart + (region.end - region.start) <= ADDRESS_LIMIT
    requires region.start % LINEAR + (region.end - region.start) <= LINEAR && paddrStart % PAGE == 0
    requires MapsPrefix(was, now, root, region, region.end - region.start, kernel, paddrStart, nxAllowed)
    ensures var table := Walk(was, root, SlotOf(va, 2));
      Lookup(now, root, va).Allowed().user <==> !kernel && table.Table? && table.rights.user
  {
    StaticTranslation(was, now, root, region, kernel, paddrStart, nxAllowed, va);
  }
}
