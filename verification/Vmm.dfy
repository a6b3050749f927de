/** Page tables at work: acquiring tables on demand (Kernel/Source/Memory/PTE.c), static mapping
    (Kernel/Source/Memory/Virtmemmgmt.c) and demand paging (Kernel/Source/Intmgmt/PageFault.c). */
module Vmm {
  import opened Machine
  import opened Pte
  import opened PageTable
  import opened Physmem
  import PageSearch
  import Regions

  /** The frames behind `tab` are whole pages that the page manager counts as taken. */
  ghost predicate FramesTaken(tab: map<Prefix, nat>, taken: set<nat>) {
    forall q {:trigger q in tab} | q in tab :: tab[q] % PAGE == 0 && tab[q] / PAGE in taken
  }

  /** Tables that were added are pages that were free before. */
  ghost predicate OnlyFreshTables(was: map<Prefix, nat>, now: map<Prefix, nat>, taken: set<nat>) {
    && was.Keys <= now.Keys
    && forall q {:trigger q in now} | q in now :: if q in was then now[q] == was[q] else now[q] / PAGE !in taken
  }

  /** The page is the frame of a table. */
  ghost predicate HoldsTable(tab: map<Prefix, nat>, page: nat) {
    exists q {:trigger tab[q]} :: q in tab && tab[q] == page * PAGE
  }

  /** Every page taken since is a table now: none is lost. */
  ghost predicate Accounted(taken0: set<nat>, tab: map<Prefix, nat>, taken: set<nat>) {
    forall p: nat {:trigger HoldsTable(tab, p)} | p in taken && p !in taken0 :: HoldsTable(tab, p)
  }

  /** Page translations are untouched: every four-index walk ends as it did. */
  ghost predicate SameWalks(was: Frames, now: Frames, root: nat) {
    forall q: Prefix {:trigger Walk(now, root, q)} | q.Level() == 4 :: Walk(now, root, q) == Walk(was, root, q)
  }

  /** The walk for `va` does not end in a 1 GiB or 2 MiB leaf. */
  predicate NoLargeLeaf(fr: Frames, root: nat, va: nat) {
    var at := Lookup(fr, root, va);
    at.Leaf? ==> at.level == 3
  }

  const TableFlags := Flags(true, true, false, false, false)

  /** The selection for the three caching protocols of a region. */
  function PatFor(caching: nat): PatSelect {
    match caching
    case 1 => SelectPat(Uncacheable)
    case 2 => SelectPat(WriteCombining)
    case _ => SelectPat(WriteBack)
  }

  /** VmEncodeEntryFor. */
  function EncodeFor(flags: Regions.RegionFlags, kernel: bool, kind: PteType, base: nat, nxAllowed: bool): Entry {
    if flags.caching >= 3 then EncodeFailure
    else EncodeEntry(kind, base, Flags(true, flags.writable, !kernel, kernel, !flags.executable),
      PatFor(flags.caching), nxAllowed)
  }

  /** A page of 4 KiB as the flags of its region ask for it, as far as the tables above it let them take
      effect: `path` is what these allow. */
  ghost predicate Conforms(at: Arrival, flags: Regions.RegionFlags, kernel: bool, path: Rights, nxAllowed: bool) {
    && at.Leaf? && at.level == 3 && at.entry.global == kernel
    && at.rights.writable == (flags.writable && path.writable)
    && at.rights.user == (!kernel && path.user)
    && at.rights.noExecute == ((!flags.executable && nxAllowed) || path.noExecute)
    && (flags.caching == 0 ==> LeafType(3, at.entry) == WriteBack)
    && (flags.caching == 1 ==> LeafType(3, at.entry) == Uncacheable)
    && (flags.caching == 2 ==> LeafType(3, at.entry) == WriteCombining)
  }

  /** The leaf `e` for the page of `va`. */
  function PageLeaf(fr: Frames, root: nat, va: nat, e: Entry): Arrival {
    Leaf(3, e, Through(PathRights(fr, root, va, 3), e))
  }

  lemma EncodedConforms(fr: Frames, root: nat, va: nat, flags: Regions.RegionFlags, kernel: bool, base: nat,
        nxAllowed: bool)
    requires flags.caching < 3 && base % PAGE == 0 && base < ADDRESS_LIMIT
    ensures Conforms(PageLeaf(fr, root, va, EncodeFor(flags, kernel, PtEntry, base, nxAllowed)), flags, kernel,
                     PathRights(fr, root, va, 3), nxAllowed)
  {
    DecodeEncode(PtEntry, base, Flags(true, flags.writable, !kernel, kernel, !flags.executable), PatFor(flags.caching),
      nxAllowed);
  }

  lemma EncodeForPage(flags: Regions.RegionFlags, id: nat, nxAllowed: bool)
    ensures var e := EncodeFor(flags, true, PtEntry, id * PAGE, nxAllowed);
      && e.present && (e != EncodeFailure <==> flags.caching < 3) && (e != EncodeFailure ==> e.address == id * PAGE)
  {
  }

  datatype FaultOutcome = Handled | Meltdown

  /** The per-CPU flag that detects a page fault during a page fault. */
  class PerCpu {
    var inPageFault: bool
  }

  /** The region flags under which a missing page is supplied on demand. */
  predicate DemandPaged(flags: Regions.RegionFlags) {
    !flags.isStatic && !flags.guard && !flags.largePages && flags.caching < 3
  }

  /** Some region holds `va`, and every region that does is served on demand. */
  ghost predicate Servable(space: Regions.AddressSpace, va: nat)
    reads space
  {
    && (exists node :: node in space.nodes && node.start <= va < node.end)
    && forall node :: node in space.nodes && node.start <= va < node.end ==> DemandPaged(node.flags)
  }

  /** The page of `va` is as some region that holds `va`, and is served on demand, asks for it. */
  ghost predicate ForRegion(nodes: seq<Regions.Region>, va: nat, at: Arrival, path: Rights, nxAllowed: bool) {
    exists node :: node in nodes && node.start <= va < node.end && DemandPaged(node.flags)
      && Conforms(at, node.flags, true, path, nxAllowed)
  }

  /** A page fault at `va` was served with the physical page `page`: it was free, its frame is
      zeroed and is no table, the translations of all other pages are as before, and tables were
      added from other free pages only. */
  ghost predicate Served(root: nat, fr0: Frames, tab0: map<Prefix, nat>, taken0: set<nat>,
                         fr1: Frames, tab1: map<Prefix, nat>, taken1: set<nat>, va: nat, page: nat) {
    && page !in taken0 && page in taken1 && taken0 <= taken1 && Accounted(taken0 + {page}, tab1, taken1)
    && page * PAGE in fr1 && fr1[page * PAGE] == ZeroFrame() && page * PAGE !in tab1.Values
    && OnlyFreshTables(tab0, tab1, taken0) && SamePaths(fr0, fr1, root)
    && Lookup(fr1, root, va).Leaf? && Lookup(fr1, root, va).level == 3
    && Lookup(fr1, root, va).entry.address == page * PAGE
    && forall vb: nat {:trigger Lookup(fr1, root, vb)} ::
         if va % LINEAR / PAGE == vb % LINEAR / PAGE then Lookup(fr1, root, vb) == Lookup(fr1, root, va)
         else Lookup(fr1, root, vb) == Lookup(fr0, root, vb)
  }

  /** The walk arrives at the table in `frame`, which allows what the tables above it and the flags it was
      linked with do. */
  ghost predicate LinkedWith(above: Rights, at: Arrival, frame: nat, flags: Flags, nxAllowed: bool) {
    && at.Table? && at.frame == frame
    && at.rights.writable == (above.writable && flags.writable) && at.rights.user == (above.user && flags.user)
    && at.rights.noExecute == (above.noExecute || (flags.nx && nxAllowed))
  }

  /** The tables of one address space, as physical frames. */
  class Tables {
    const root: nat
    const noExecuteSupport: bool
    var initialized: bool
    var frames: Frames
    ghost var tab: map<Prefix, nat>

    ghost predicate Valid()
      reads this
    {
      Tree(frames, root, tab)
    }

    function NxAllowed(): bool
      reads this
    {
      !initialized || noExecuteSupport
    }

    /** PteGetOrAcquirePageStruct. The container is the table `r`; its frame is read and written
        in place. A page id always gives a 4 KiB aligned base, so encoding never fails here. */
    method GetOrAcquire(pm: PageManager, container: nat, ghost r: Prefix, kind: PteType, index: nat, flags: Flags,
          pat: PatSelect)
      returns (frame: Option<nat>)
      requires Valid() && pm.Valid() && FramesTaken(tab, pm.taken) && pm.nrPages <= ADDRESSED
      requires r in tab && container == tab[r] && index < 512 && r.Level() < 3
      requires kind != InvalidPteType && !IsLeafType(kind) && LevelOf(kind) == r.Level() && flags.present
      requires frames[container][index].present ==> IsTable(r.Level(), frames[container][index])
      modifies this`frames, this`tab, pm`acquiredPages, pm`acquireHint, pm`taken, pm.primary
      ensures Valid() && pm.Valid() && FramesTaken(tab, pm.taken) && old(pm.taken) <= pm.taken
      ensures frame.Some? ==> At(r, index) in tab && tab[At(r, index)] == frame.value
      ensures frame.None? ==> frames == old(frames) && tab == old(tab)
      ensures tab.Keys <= old(tab).Keys + {At(r, index)} && OnlyFreshTables(old(tab), tab, old(pm.taken))
      ensures Accounted(old(pm.taken), tab, pm.taken)
      ensures SameWalks(old(frames), frames, root)
      ensures frame.Some? && !old(frames)[container][index].present ==>
        LinkedWith(Walk(old(frames), root, r).Allowed(), Walk(frames, root, At(r, index)), frame.value, flags,
                   !initialized || noExecuteSupport)
      ensures frame.Some? && old(frames)[container][index].present ==> frames == old(frames)
      ensures flags.writable && !flags.user && !flags.nx ==> SamePaths(old(frames), frames, root)
      ensures frame.None? ==> pm.Dry(INVALID_PAGE)
    {
      var entry := frames[container][index];
      if entry.present {
        return Some(entry.address);
      }
      frame := AcquireTable(pm, container, r, kind, index, flags, pat);
    }

    /** Its second half: a page for an unused slot. */
    method AcquireTable(pm: PageManager, container: nat, ghost r: Prefix, kind: PteType, index: nat, flags: Flags,
          pat: PatSelect)
      returns (frame: Option<nat>)
      requires Valid() && pm.Valid() && FramesTaken(tab, pm.taken) && pm.nrPages <= ADDRESSED
      requires r in tab && container == tab[r] && index < 512 && r.Level() < 3
      requires kind != InvalidPteType && !IsLeafType(kind) && LevelOf(kind) == r.Level() && flags.present
      requires !frames[container][index].present
      modifies this`frames, this`tab, pm`acquiredPages, pm`acquireHint, pm`taken, pm.primary
      ensures Valid() && pm.Valid() && FramesTaken(tab, pm.taken) && old(pm.taken) <= pm.taken
      ensures frame.Some? ==> tab == old(tab)[At(r, index) := frame.value]
      ensures frame.None? ==> frames == old(frames) && tab == old(tab) && pm.Dry(INVALID_PAGE)
      ensures OnlyFreshTables(old(tab), tab, old(pm.taken)) && SameWalks(old(frames), frames, root)
      ensures Accounted(old(pm.taken), tab, pm.taken)
      ensures frame.Some? ==>
        LinkedWith(Walk(old(frames), root, r).Allowed(), Walk(frames, root, At(r, index)), frame.value, flags,
                   !initialized || noExecuteSupport)
      ensures flags.writable && !flags.user && !flags.nx ==> SamePaths(old(frames), frames, root)
    {
      ghost var fr0, taken0, id := frames, pm.taken, 0;
      frame, id := LinkPage(pm, container, kind, index, flags, pat);
      if frame.Some? {
        PageLinked(fr0, root, tab, taken0, id, r, index, kind, flags, pat, NxAllowed());
        tab := tab[At(r, index) := frame.value];
      }
    }

    /** What it does to memory, wherever the address of the page points. */
    method LinkPage(pm: PageManager, container: nat, kind: PteType, index: nat, flags: Flags, pat: PatSelect)
      returns (frame: Option<nat>, ghost id: nat)
      requires pm.Valid() && container in frames && |frames[container]| == 512 && index < 512
      modifies this`frames, pm`acquiredPages, pm`acquireHint, pm`taken, pm.primary
      ensures pm.Valid()
      ensures frame.None? ==> frames == old(frames) && pm.taken == old(pm.taken) && pm.Dry(INVALID_PAGE)
      ensures frame.None? <==> old(pm.Dry(INVALID_PAGE))
      ensures frame.Some? ==>
        && PageSearch.Free(old(pm.taken), pm.nrPages, id) && pm.taken == old(pm.taken) + {id}
        && frame.value == AddressOf(id)
        && frames == SetSlot(old(frames), container, index, EncodeEntry(kind, frame.value, flags, pat, NxAllowed()))
                     [frame.value := ZeroFrame()]
    {
      var acquired := pm.AcquirePage(INVALID_PAGE);
      id := acquired;
      if acquired == INVALID_PAGE {
        return None, id;
      }
      var address := pm.PageAddress(acquired);
      frames := SetSlot(frames, container, index, EncodeEntry(kind, address, flags, pat, NxAllowed()));
      frames := frames[address := ZeroFrame()];
      return Some(address), id;
    }

    /** One level of the descent for `va`: from the table it is in to the next one. */
    method Descend(pm: PageManager, va: nat, level: nat, container: nat, index: nat) returns (next: Option<nat>)
      requires pm.nrPages <= ADDRESSED
      requires Valid() && pm.Valid() && FramesTaken(tab, pm.taken) && NoLargeLeaf(frames, root, va)
      requires level < 3 && TableOf(va, level) in tab && tab[TableOf(va, level)] == container
      requires index == Index(va, level)
      modifies this`frames, this`tab, pm`acquiredPages, pm`acquireHint, pm`taken, pm.primary
      ensures Valid() && pm.Valid() && NoLargeLeaf(frames, root, va)
      ensures next.Some? ==> SlotOf(va, level) in tab && tab[SlotOf(va, level)] == next.value
      ensures Grown(root, old(frames), old(tab), old(pm.taken), frames, tab, pm.taken)
      ensures next.None? ==> pm.Dry(INVALID_PAGE)
    {
      SlotLevels(va);
      PresentIsTable(frames, root, tab, va, level);
      var kind := if level == 0 then Pml4Entry else if level == 1 then PdptEntry else PdEntry;
      next := GetOrAcquire(pm, container, TableOf(va, level), kind, index, TableFlags, DefaultPat);
    }

    /** The three levels VmMapStatic and the fault handler go down: the table that holds the PTE
        of `va`. */
    method TableFor(pm: PageManager, va: nat) returns (pt: Option<nat>)
      requires pm.nrPages <= ADDRESSED
      requires Valid() && pm.Valid() && FramesTaken(tab, pm.taken) && NoLargeLeaf(frames, root, va)
      modifies this`frames, this`tab, pm`acquiredPages, pm`acquireHint, pm`taken, pm.primary
      ensures Valid() && pm.Valid()
      ensures pt.Some? ==> SlotOf(va, 2) in tab && tab[SlotOf(va, 2)] == pt.value
      ensures Grown(root, old(frames), old(tab), old(pm.taken), frames, tab, pm.taken)
      ensures pt.None? ==> pm.Dry(INVALID_PAGE)
    {
      var i0, i1, i2 := Indices(va);
      ghost var fr0, tab0, taken0 := frames, tab, pm.taken;
      var pdpt := Descend(pm, va, 0, root, i0);
      if pdpt.None? {
        return None;
      }
      var pd := DescendFurther(pm, va, 1, pdpt.value, i1, fr0, tab0, taken0);
      if pd.None? {
        return None;
      }
      pt := DescendFurther(pm, va, 2, pd.value, i2, fr0, tab0, taken0);
    }

    static method Indices(va: nat) returns (pml4: nat, pdpt: nat, pd: nat)
      ensures pml4 == Index(va, 0) && pdpt == Index(va, 1) && pd == Index(va, 2)
    {
      var v := Unmake(Small, va);
      pml4, pdpt, pd := v.pml4, v.pdpt, v.pd;
    }

    method DescendFurther(pm: PageManager, va: nat, level: nat, container: nat, index: nat,
                          ghost fr0: Frames, ghost tab0: map<Prefix, nat>, ghost taken0: set<nat>)
      returns (next: Option<nat>)
      requires pm.nrPages <= ADDRESSED
      requires Valid() && pm.Valid() && Grown(root, fr0, tab0, taken0, frames, tab, pm.taken)
      requires NoLargeLeaf(frames, root, va)
      requires level < 3 && TableOf(va, level) in tab && tab[TableOf(va, level)] == container
      requires index == Index(va, level)
      modifies this`frames, this`tab, pm`acquiredPages, pm`acquireHint, pm`taken, pm.primary
      ensures Valid() && pm.Valid() && NoLargeLeaf(frames, root, va)
      ensures next.Some? ==> SlotOf(va, level) in tab && tab[SlotOf(va, level)] == next.value
      ensures Grown(root, fr0, tab0, taken0, frames, tab, pm.taken)
      ensures next.None? ==> pm.Dry(INVALID_PAGE)
    {
      ghost var fr1, tab1, taken1 := frames, tab, pm.taken;
      next := Descend(pm, va, level, container, index);
      GrownTwice(root, fr0, tab0, taken0, fr1, tab1, taken1, frames, tab, pm.taken);
    }

    /** `PT[Vidx.PT] = ...` for a table found by TableFor. */
    method WritePte(va: nat, pt: nat, e: Entry)
      requires Valid() && SlotOf(va, 2) in tab && tab[SlotOf(va, 2)] == pt && e.present
      modifies `frames
      ensures Valid() && PageSet(old(frames), frames, root, va, e) && SamePaths(old(frames), frames, root)
    {
      SlotLevels(va);
      assert Unmake(Small, va).pt == Index(va, 3);
      PteWritten(frames, root, tab, va, e);
      frames := SetSlot(frames, pt, Unmake(Small, va).pt, e);
    }

    /** VmMapStatic. The region lies in one canonical half and below it no page is covered by a
        large leaf. `done` is how far the loop came; it stops early only when pages run out. */
    method MapStatic(pm: PageManager, region: Regions.Region, kernel: bool, paddrStart: nat)
      returns (ok: bool, ghost done: nat)
      requires pm.nrPages <= ADDRESSED
      requires Valid() && pm.Valid() && FramesTaken(tab, pm.taken)
      requires region.start < region.end && WholePages(region)
      requires region.start % LINEAR + (region.end - region.start) <= LINEAR
      requires paddrStart + (region.end - region.start) <= ADDRESS_LIMIT
      requires forall va: nat | region.start <= va < region.end :: NoLargeLeaf(frames, root, va)
      modifies this`frames, this`tab, pm`acquiredPages, pm`acquireHint, pm`taken, pm.primary
      ensures Valid() && pm.Valid() && FramesTaken(tab, pm.taken) && old(pm.taken) <= pm.taken
      ensures OnlyFreshTables(old(tab), tab, old(pm.taken)) && Accounted(old(pm.taken), tab, pm.taken)
      ensures paddrStart % region.flags.PageSize() != 0 || !region.flags.isStatic ==> !ok && done == 0
      ensures ok <==> done == region.end - region.start
      ensures MapsPrefix(old(frames), frames, root, region, done, kernel, paddrStart, NxAllowed())
      ensures AsAsked(old(frames), frames, root, region, done, kernel, !initialized || noExecuteSupport)
      ensures !ok ==> paddrStart % region.flags.PageSize() != 0 || !region.flags.isStatic || pm.Dry(INVALID_PAGE)
    {
      ok, done := false, 0;
      if paddrStart % region.flags.PageSize() != 0 {
        return;
      }
      if !region.flags.isStatic {
        return;
      }
      ghost var fr0 := frames;
      ok, done := MapPages(pm, region, kernel, paddrStart);
      PrefixAsAsked(fr0, frames, root, region, done, kernel, paddrStart, NxAllowed());
    }

    /** The loop of VmMapStatic. */
    method MapPages(pm: PageManager, region: Regions.Region, kernel: bool, paddrStart: nat)
      returns (ok: bool, ghost done: nat)
      requires pm.nrPages <= ADDRESSED
      requires Valid() && pm.Valid() && FramesTaken(tab, pm.taken)
      requires region.start < region.end && WholePages(region)
      requires region.start % LINEAR + (region.end - region.start) <= LINEAR
      requires forall va: nat | region.start <= va < region.end :: NoLargeLeaf(frames, root, va)
      modifies this`frames, this`tab, pm`acquiredPages, pm`acquireHint, pm`taken, pm.primary
      ensures Valid() && pm.Valid()
      ensures Progress(region, old(frames), old(tab), old(pm.taken), pm.taken, kernel, paddrStart, done)
      ensures if ok then done == region.end - region.start else done < region.end - region.start && pm.Dry(INVALID_PAGE)
    {
      ok, done := false, 0;
      ghost var fr0, tab0, taken0 := frames, tab, pm.taken;
      var offset := 0;
      while offset < region.end - region.start
        invariant offset <= region.end - region.start && offset % region.flags.PageSize() == 0
        invariant Valid() && pm.Valid()
        invariant Progress(region, fr0, tab0, taken0, pm.taken, kernel, paddrStart, offset)
      {
        var mapped;
        done := offset;
        mapped, offset := MapPage(pm, region, kernel, paddrStart, offset, fr0, tab0, taken0);
        if !mapped {
          return;
        }
      }
      ok, done := true, offset;
    }

    /** The loop body of VmMapStatic. */
    method MapPage(pm: PageManager, region: Regions.Region, kernel: bool, paddrStart: nat, offset: nat,
                   ghost fr0: Frames, ghost tab0: map<Prefix, nat>, ghost taken0: set<nat>)
      returns (ok: bool, offset': nat)
      requires pm.nrPages <= ADDRESSED
      requires Valid() && pm.Valid()
      requires StepAt(region, offset)
      requires NoLargeLeaf(fr0, root, region.start + offset)
      requires Progress(region, fr0, tab0, taken0, pm.taken, kernel, paddrStart, offset)
      modifies this`frames, this`tab, pm`acquiredPages, pm`acquireHint, pm`taken, pm.primary
      ensures Valid() && pm.Valid()
      ensures Progress(region, fr0, tab0, taken0, pm.taken, kernel, paddrStart, offset')
      ensures if ok then offset' == offset + region.flags.PageSize() else offset' == offset && pm.Dry(INVALID_PAGE)
      ensures offset' <= region.end - region.start && offset' % region.flags.PageSize() == 0
    {
      offset' := offset;
      var pt := LevelsFor(pm, region, kernel, paddrStart, offset, fr0, tab0, taken0);
      if pt.None? {
        return false, offset;
      }
      offset' := MapLeaf(region, kernel, paddrStart, offset, pt.value, fr0);
      ok := true;
    }

    /** Its first part: the tables above the page at `offset`. */
    method LevelsFor(pm: PageManager, region: Regions.Region, kernel: bool, paddrStart: nat, offset: nat,
                     ghost fr0: Frames, ghost tab0: map<Prefix, nat>, ghost taken0: set<nat>)
      returns (pt: Option<nat>)
      requires pm.nrPages <= ADDRESSED
      requires Valid() && pm.Valid() && StepAt(region, offset) && NoLargeLeaf(fr0, root, region.start + offset)
      requires Progress(region, fr0, tab0, taken0, pm.taken, kernel, paddrStart, offset)
      modifies this`frames, this`tab, pm`acquiredPages, pm`acquireHint, pm`taken, pm.primary
      ensures Valid() && pm.Valid()
      ensures Progress(region, fr0, tab0, taken0, pm.taken, kernel, paddrStart, offset)
      ensures pt.Some? ==>
        SlotOf(region.start + offset, 2) in tab && tab[SlotOf(region.start + offset, 2)] == pt.value
      ensures pt.None? ==> pm.Dry(INVALID_PAGE)
    {
      ghost var fr1, tab1, taken1 := frames, tab, pm.taken;
      assert NoLargeLeaf(frames, root, region.start + offset) by {
        PendingPage(fr0, frames, root, region, offset, kernel, paddrStart, NxAllowed());
      }
      pt := TableFor(pm, region.start + offset);
      GrownKeepsPrefix(fr0, tab0, taken0, fr1, tab1, taken1, frames, tab, pm.taken, root, region, offset, kernel,
        paddrStart, NxAllowed());
    }

    /** Its last statement: the PTE of the page at `offset`. */
    method MapLeaf(region: Regions.Region, kernel: bool, paddrStart: nat, offset: nat, pt: nat, ghost fr0: Frames)
      returns (offset': nat)
      requires Valid() && SlotOf(region.start + offset, 2) in tab && tab[SlotOf(region.start + offset, 2)] == pt
      requires StepAt(region, offset)
      requires MapsPrefix(fr0, frames, root, region, offset, kernel, paddrStart, NxAllowed())
      modifies `frames
      ensures Valid() && offset' == offset + region.flags.PageSize()
      ensures offset' <= region.end - region.start && offset' % region.flags.PageSize() == 0
      ensures MapsPrefix(fr0, frames, root, region, offset', kernel, paddrStart, NxAllowed())
    {
      offset' := offset + region.flags.PageSize();
      StepFits(region, offset);
      ghost var fr1 := frames;
      WritePte(region.start + offset, pt, EncodeFor(region.flags, kernel, PtEntry, paddrStart + offset, NxAllowed()));
      PrefixExtends(fr0, fr1, frames, root, region, offset, kernel, paddrStart, NxAllowed());
    }

    /** IntmgmtPageFault for the fault at `va`. Meltdown stands for the two ways it does not
        return: a fault inside the handler, and a fault it cannot handle. */
    method HandlePageFault(cpu: PerCpu, pm: PageManager, space: Regions.AddressSpace, va: nat,
                           presentCode: bool, userCode: bool, instructionCode: bool)
      returns (outcome: FaultOutcome, ghost page: nat)
      requires pm.nrPages <= ADDRESSED
      requires Valid() && pm.Valid() && FramesTaken(tab, pm.taken) && space.Valid()
      requires !presentCode ==> Lookup(frames, root, va).Fault?
      modifies cpu, this`frames, this`tab, pm`acquiredPages, pm`acquireHint, pm`taken, pm.primary
      ensures Valid() && pm.Valid() && FramesTaken(tab, pm.taken)
      ensures old(cpu.inPageFault) ==> outcome == Meltdown && frames == old(frames) && pm.taken == old(pm.taken)
      ensures !old(cpu.inPageFault) ==> !cpu.inPageFault
      ensures outcome == Handled ==>
        && !presentCode && !userCode && !instructionCode
        && Served(root, old(frames), old(tab), old(pm.taken), frames, tab, pm.taken, va, page)
        && ForRegion(space.nodes, va, Lookup(frames, root, va), PathRights(old(frames), root, va, 3), noExecuteSupport)
      ensures outcome == Meltdown ==>
        || old(cpu.inPageFault) || !initialized || presentCode || userCode || instructionCode
        || !Servable(space, va) || pm.DryBut(page)
      ensures outcome == Meltdown ==> Accounted(old(pm.taken), tab, pm.taken)
    {
      outcome, page := Meltdown, 0;
      if cpu.inPageFault {
        return;
      }
      if initialized {
        cpu.inPageFault := true;
        if !presentCode && !userCode && !instructionCode {
          outcome, page := ServeFault(pm, space, va);
        }
      }
      cpu.inPageFault := false;
    }

    /** The region of `va` is found, and asked whether it is served on demand. */
    method ServeFault(pm: PageManager, space: Regions.AddressSpace, va: nat)
      returns (outcome: FaultOutcome, ghost page: nat)
      requires pm.nrPages <= ADDRESSED
      requires Valid() && pm.Valid() && FramesTaken(tab, pm.taken) && space.Valid() && Lookup(frames, root, va).Fault?
      modifies this`frames, this`tab, pm`acquiredPages, pm`acquireHint, pm`taken, pm.primary
      ensures Valid() && pm.Valid() && FramesTaken(tab, pm.taken)
      ensures outcome == Handled ==>
        && Served(root, old(frames), old(tab), old(pm.taken), frames, tab, pm.taken, va, page)
        && ForRegion(space.nodes, va, Lookup(frames, root, va), PathRights(old(frames), root, va, 3), NxAllowed())
      ensures outcome == Meltdown ==> !Servable(space, va) || pm.DryBut(page)
      ensures outcome == Meltdown ==> Accounted(old(pm.taken), tab, pm.taken)
    {
      outcome, page := Meltdown, 0;
      var region := space.Locate(va);
      if region != null && !region.flags.isStatic && !region.flags.guard && !region.flags.largePages {
        outcome, page := CommitPage(pm, va, region.flags);
      }
    }

    /** From the acquisition of the data page to its clearing. */
    method CommitPage(pm: PageManager, va: nat, flags: Regions.RegionFlags)
      returns (outcome: FaultOutcome, ghost page: nat)
      requires pm.nrPages <= ADDRESSED
      requires Valid() && pm.Valid() && FramesTaken(tab, pm.taken) && Lookup(frames, root, va).Fault?
      requires !flags.isStatic && !flags.guard && !flags.largePages
      modifies this`frames, this`tab, pm`acquiredPages, pm`acquireHint, pm`taken, pm.primary
      ensures Valid() && pm.Valid() && FramesTaken(tab, pm.taken)
      ensures outcome == Handled ==>
        && Served(root, old(frames), old(tab), old(pm.taken), frames, tab, pm.taken, va, page)
        && DemandPaged(flags)
        && Conforms(Lookup(frames, root, va), flags, true, PathRights(old(frames), root, va, 3), NxAllowed())
      ensures outcome == Meltdown ==> flags.caching >= 3 || pm.DryBut(page)
      ensures outcome == Meltdown ==> Accounted(old(pm.taken), tab, pm.taken)
    {
      outcome, page := Meltdown, 0;
      ghost var taken0 := pm.taken;
      var id := pm.AcquirePage(INVALID_PAGE);
      if id != INVALID_PAGE {
        page := id;
        outcome := CommitTo(pm, va, flags, id, taken0);
      }
    }

    /** Everything after the acquisition. */
    method CommitTo(pm: PageManager, va: nat, flags: Regions.RegionFlags, id: nat, ghost taken0: set<nat>)
      returns (outcome: FaultOutcome)
      requires pm.nrPages <= ADDRESSED && id < pm.nrPages && id !in taken0 && pm.taken == taken0 + {id}
      requires id !in pm.reserved
      requires Valid() && pm.Valid() && FramesTaken(tab, taken0) && Lookup(frames, root, va).Fault?
      requires !flags.isStatic && !flags.guard && !flags.largePages
      modifies this`frames, this`tab, pm`acquiredPages, pm`acquireHint, pm`taken, pm.primary
      ensures Valid() && pm.Valid() && FramesTaken(tab, pm.taken)
      ensures outcome == Handled ==>
        && Served(root, old(frames), old(tab), taken0, frames, tab, pm.taken, va, id)
        && DemandPaged(flags)
        && Conforms(Lookup(frames, root, va), flags, true, PathRights(old(frames), root, va, 3), NxAllowed())
      ensures outcome == Meltdown ==> (flags.caching >= 3 || pm.DryBut(id)) && Accounted(taken0, tab, pm.taken)
    {
      outcome := Meltdown;
      ghost var fr0, tab0, taken1 := frames, tab, pm.taken;
      AddressRight(id);
      var address := pm.PageAddress(id);
      var pt := TableFor(pm, va);
      PageIsData(tab, tab0, taken0, taken1, id);
      if pt.Some? {
        var ok := InstallPage(va, pt.value, id, address, flags, pm.taken, fr0, tab0, taken0, taken1);
        if ok {
          return Handled;
        }
      }
      GivenBack(tab, taken0, pm.taken, id);
      GiveBack(pm, id);
    }

    /** The data page goes back; the tables stay. */
    method GiveBack(pm: PageManager, id: nat)
      requires pm.Valid() && FramesTaken(tab, pm.taken) && id < pm.nrPages && id * PAGE !in tab.Values
      modifies pm`acquiredPages, pm`taken, pm.primary
      ensures pm.Valid() && FramesTaken(tab, pm.taken) && (old(pm.Dry(INVALID_PAGE)) ==> pm.DryBut(id))
      ensures id in old(pm.taken) && id !in old(pm.reserved) ==> pm.taken == old(pm.taken) - {id}
    {
      ghost var taken := pm.taken;
      var _ := pm.RelinquishPage(id);
      assert forall p: nat :: PageSearch.Free(pm.taken, pm.nrPages, p) ==>
        p == id || PageSearch.Free(taken, pm.nrPages, p);
      forall q | q in tab ensures tab[q] / PAGE != id { assert tab[q] in tab.Values; }
    }

    /** Write the PTE and, unless its encoding failed, clear the page. */
    method InstallPage(va: nat, pt: nat, ghost id: nat, address: nat, flags: Regions.RegionFlags,
                       ghost taken: set<nat>, ghost fr0: Frames, ghost tab0: map<Prefix, nat>, ghost taken0: set<nat>,
                       ghost taken1: set<nat>)
      returns (ok: bool)
      requires address == id * PAGE && id < ADDRESSED
      requires Valid() && SlotOf(va, 2) in tab && tab[SlotOf(va, 2)] == pt
      requires id !in taken0 && taken1 == taken0 + {id} && id * PAGE !in tab.Values
      requires Grown(root, fr0, tab0, taken1, frames, tab, taken)
      modifies `frames
      ensures Valid() && (ok <==> flags.caching < 3)
      ensures ok ==> Served(root, fr0, tab0, taken0, frames, tab, taken, va, id)
      ensures ok ==> Conforms(Lookup(frames, root, va), flags, true, PathRights(fr0, root, va, 3), NxAllowed())
    {
      var e := EncodeFor(flags, true, PtEntry, address, NxAllowed());
      EncodeForPage(flags, id, NxAllowed());
      ok := e != EncodeFailure;
      if ok { EncodedConforms(fr0, root, va, flags, true, address, NxAllowed()); }
      InstallEntry(va, pt, id, address, e, taken, fr0, tab0, taken0, taken1);
    }

    /** The entry is written even when it is the failure word; the page is cleared only when not. */
    method InstallEntry(va: nat, pt: nat, ghost id: nat, address: nat, e: Entry, ghost taken: set<nat>,
                        ghost fr0: Frames, ghost tab0: map<Prefix, nat>, ghost taken0: set<nat>, ghost taken1: set<nat>)
      requires address == id * PAGE
      requires Valid() && SlotOf(va, 2) in tab && tab[SlotOf(va, 2)] == pt
      requires id !in taken0 && taken1 == taken0 + {id} && id * PAGE !in tab.Values
      requires Grown(root, fr0, tab0, taken1, frames, tab, taken)
      requires e.present && (e != EncodeFailure ==> e.address == id * PAGE)
      modifies `frames
      ensures Valid()
      ensures e != EncodeFailure ==>
        && Served(root, fr0, tab0, taken0, frames, tab, taken, va, id)
        && Lookup(frames, root, va) == PageLeaf(fr0, root, va, e)
    {
      ghost var fr1 := frames;
      WritePte(va, pt, e);
      if e != EncodeFailure {
        ClearPage(va, id, address, e, taken, fr0, fr1, tab0, taken0, taken1);
      }
    }

    method ClearPage(ghost va: nat, ghost id: nat, address: nat, ghost e: Entry, ghost taken: set<nat>,
                     ghost fr0: Frames, ghost fr1: Frames, ghost tab0: map<Prefix, nat>,
                     ghost taken0: set<nat>, ghost taken1: set<nat>)
      requires address == id * PAGE
      requires Valid() && id !in taken0 && taken1 == taken0 + {id} && e.address == id * PAGE && id * PAGE !in tab.Values
      requires Grown(root, fr0, tab0, taken1, fr1, tab, taken)
      requires PageSet(fr1, frames, root, va, e) && SamePaths(fr1, frames, root)
      modifies `frames
      ensures Valid() && Served(root, fr0, tab0, taken0, frames, tab, taken, va, id)
      ensures Lookup(frames, root, va) == PageLeaf(fr0, root, va, e)
    {
      GrownThenServed(root, fr0, fr1, frames, tab0, tab, taken0, taken1, taken, va, id, e);
      frames := frames[address := ZeroFrame()];
    }

    ghost predicate Progress(region: Regions.Region, fr0: Frames, tab0: map<Prefix, nat>, taken0: set<nat>,
                             taken: set<nat>, kernel: bool, paddrStart: nat, offset: nat)
      reads this
    {
      && taken0 <= taken && FramesTaken(tab, taken) && OnlyFreshTables(tab0, tab, taken0)
      && Accounted(taken0, tab, taken)
      && MapsPrefix(fr0, frames, root, region, offset, kernel, paddrStart, NxAllowed())
    }
  }

  ghost predicate WholePages(region: Regions.Region) {
    region.start % region.flags.PageSize() == 0 && region.end % region.flags.PageSize() == 0
  }

  /** How far the linear address of `va` lies into the region; negative when below it. */
  function OffsetIn(region: Regions.Region, va: nat): int {
    va % LINEAR - region.start % LINEAR
  }

  /** `offset` is a place of the loop over a region that lies in one canonical half. */
  ghost predicate StepAt(region: Regions.Region, offset: nat) {
    && offset < region.end - region.start && WholePages(region) && offset % region.flags.PageSize() == 0
    && region.start % LINEAR + (region.end - region.start) <= LINEAR
  }

  /** The byte at `offset` lies on a page that VmMapStatic has written after `done` bytes: one 4 KiB
      page per step of the region's page size. */
  predicate Written(region: Regions.Region, done: nat, offset: int) {
    0 <= offset < done && offset % region.flags.PageSize() < PAGE
  }

  /** After `done` bytes of the region exactly the written pages translate anew, each to its place
      after `paddrStart` with the region's entry; every other address walks as before. */
  ghost predicate MapsPrefix(was: Frames, now: Frames, root: nat, region: Regions.Region, done: nat,
                             kernel: bool, paddrStart: nat, nxAllowed: bool) {
    SamePaths(was, now, root) &&
    forall va: nat {:trigger Lookup(now, root, va)} ::
      Lookup(now, root, va) ==
        if Written(region, done, OffsetIn(region, va))
        then PageLeaf(was, root, va, EncodeFor(region.flags, kernel, PtEntry,
                                               PageBase(region, paddrStart, OffsetIn(region, va)), nxAllowed))
        else Lookup(was, root, va)
  }

  /** The pages written are as the region's flags ask for it, where these ask for anything. */
  ghost predicate AsAsked(was: Frames, now: Frames, root: nat, region: Regions.Region, done: nat, kernel: bool,
                          nxAllowed: bool) {
    forall va: nat {:trigger Lookup(now, root, va)} |
      region.flags.caching < 3 && Written(region, done, OffsetIn(region, va)) ::
      Conforms(Lookup(now, root, va), region.flags, kernel, PathRights(was, root, va, 3), nxAllowed)
  }

  lemma PrefixAsAsked(was: Frames, now: Frames, root: nat, region: Regions.Region, done: nat, kernel: bool,
                      paddrStart: nat, nxAllowed: bool)
    requires MapsPrefix(was, now, root, region, done, kernel, paddrStart, nxAllowed)
    requires region.start <= region.end && done <= region.end - region.start
    requires paddrStart % region.flags.PageSize() == 0 && paddrStart + (region.end - region.start) <= ADDRESS_LIMIT
    ensures AsAsked(was, now, root, region, done, kernel, nxAllowed)
  {
    forall va: nat | region.flags.caching < 3 && Written(region, done, OffsetIn(region, va))
      ensures Conforms(Lookup(now, root, va), region.flags, kernel, PathRights(was, root, va, 3), nxAllowed)
    {
      var offset: nat := OffsetIn(region, va);
      PageBaseAligned(region, paddrStart, offset);
      EncodedConforms(was, root, va, region.flags, kernel, PageBase(region, paddrStart, offset), nxAllowed);
    }
  }

  lemma PageBaseAligned(region: Regions.Region, paddrStart: nat, offset: nat)
    requires paddrStart % region.flags.PageSize() == 0
    ensures PageBase(region, paddrStart, offset) % PAGE == 0
  {
    var step := region.flags.PageSize();
    var j, k := paddrStart / step, offset / step;
    assert paddrStart == step * j && offset - offset % step == step * k;
    assert PageBase(region, paddrStart, offset) == step * (j + k);
    DivMod(step, j + k, 0);
    PageAligned(region, step * (j + k));
  }

  function PageBase(region: Regions.Region, paddrStart: nat, offset: int): nat
    requires 0 <= offset
  {
    paddrStart + (offset - offset % region.flags.PageSize())
  }

  /** Tables were added from free pages, and no translation changed, nor what the tables on a path allow. */
  ghost predicate Grown(root: nat, fr0: Frames, tab0: map<Prefix, nat>, taken0: set<nat>,
                        fr1: Frames, tab1: map<Prefix, nat>, taken1: set<nat>) {
    && taken0 <= taken1 && FramesTaken(tab1, taken1) && OnlyFreshTables(tab0, tab1, taken0)
    && SameWalks(fr0, fr1, root) && SamePaths(fr0, fr1, root) && Accounted(taken0, tab1, taken1)
  }

  lemma GrownTwice(root: nat, fr0: Frames, tab0: map<Prefix, nat>, taken0: set<nat>,
                   fr1: Frames, tab1: map<Prefix, nat>, taken1: set<nat>,
                   fr2: Frames, tab2: map<Prefix, nat>, taken2: set<nat>)
    requires Grown(root, fr0, tab0, taken0, fr1, tab1, taken1)
    requires Grown(root, fr1, tab1, taken1, fr2, tab2, taken2)
    ensures Grown(root, fr0, tab0, taken0, fr2, tab2, taken2)
  {
    AccountedTwice(taken0, tab1, taken1, tab2, taken2);
  }

  lemma AccountedTwice(taken0: set<nat>, tab1: map<Prefix, nat>, taken1: set<nat>, tab2: map<Prefix, nat>,
        taken2: set<nat>)
    requires Accounted(taken0, tab1, taken1) && Accounted(taken1, tab2, taken2) && OnlyFreshTables(tab1, tab2, taken1)
    ensures Accounted(taken0, tab2, taken2)
  {
    forall p: nat | p in taken2 && p !in taken0 ensures HoldsTable(tab2, p) {
      if p in taken1 {
        assert HoldsTable(tab1, p);
        var q :| q in tab1 && tab1[q] == p * PAGE;
        assert q in tab2 && tab2[q] == tab1[q];
      }
    }
  }

  /** On a path without large leaves a present entry above the last level is a table pointer. */
  lemma PresentIsTable(fr: Frames, root: nat, tab: map<Prefix, nat>, va: nat, level: nat)
    requires Tree(fr, root, tab) && level < 3 && TableOf(va, level) in tab && NoLargeLeaf(fr, root, va)
    ensures var e := fr[tab[TableOf(va, level)]][Index(va, level)];
      e.present ==> IsTable(level, e)
  {
    SlotLevels(va);
    WalkReachesTable(fr, root, tab, TableOf(va, level));
    var e := fr[tab[TableOf(va, level)]][Index(va, level)];
    if IsLeaf(level, e) {
      assert Walk(fr, root, SlotOf(va, level)).Leaf? && Walk(fr, root, SlotOf(va, level)).level == level;
      LeafStays(fr, root, va, level);
    }
  }

  /** Once a walk is at a leaf, the lower levels are not read. */
  lemma LeafStays(fr: Frames, root: nat, va: nat, level: nat)
    requires level <= 3 && Walk(fr, root, SlotOf(va, level)).Leaf?
    ensures Lookup(fr, root, va) == Walk(fr, root, SlotOf(va, level))
    decreases 3 - level
  {
    if level < 3 {
      LeafStays(fr, root, va, level + 1);
    }
  }

  /** The page of `va` now walks to the leaf `e`, every other page as before. */
  ghost predicate PageSet(was: Frames, now: Frames, root: nat, va: nat, e: Entry) {
    forall vb: nat {:trigger Lookup(now, root, vb)} ::
      Lookup(now, root, vb) ==
        if va % LINEAR / PAGE == vb % LINEAR / PAGE then PageLeaf(was, root, vb, e) else Lookup(was, root, vb)
  }

  /** Writing the PTE of `va` sets the translation of its page and no other. */
  lemma PteWritten(fr: Frames, root: nat, tab: map<Prefix, nat>, va: nat, e: Entry)
    requires Tree(fr, root, tab) && SlotOf(va, 2) in tab && e.present
    ensures Tree(SetSlot(fr, tab[SlotOf(va, 2)], Index(va, 3), e), root, tab)
    ensures PageSet(fr, SetSlot(fr, tab[SlotOf(va, 2)], Index(va, 3), e), root, va, e)
    ensures SamePaths(fr, SetSlot(fr, tab[SlotOf(va, 2)], Index(va, 3), e), root)
  {
    SlotLevels(va);
    var r := SlotOf(va, 2);
    assert At(r, Index(va, 3)) == SlotOf(va, 3) && SlotOf(va, 3) !in tab;
    WriteLeafTree(fr, root, tab, r, Index(va, 3), e);
    var now := SetSlot(fr, tab[r], Index(va, 3), e);
    forall vb: nat
      ensures Lookup(now, root, vb) ==
        if va % LINEAR / PAGE == vb % LINEAR / PAGE then PageLeaf(fr, root, vb, e) else Lookup(fr, root, vb)
      ensures PathRights(now, root, vb, 3) == PathRights(fr, root, vb, 3)
    {
      LeafPath(fr, root, tab, r, Index(va, 3), e, vb, 3);
      PteLookup(fr, root, tab, va, e, vb);
    }
  }

  lemma PteLookup(fr: Frames, root: nat, tab: map<Prefix, nat>, va: nat, e: Entry, vb: nat)
    requires Tree(fr, root, tab) && SlotOf(va, 2) in tab && SlotOf(va, 3) !in tab && e.present
    ensures Lookup(SetSlot(fr, tab[SlotOf(va, 2)], Index(va, 3), e), root, vb) ==
      if va % LINEAR / PAGE == vb % LINEAR / PAGE then PageLeaf(fr, root, vb, e) else Lookup(fr, root, vb)
  {
    var r, now := SlotOf(va, 2), SetSlot(fr, tab[SlotOf(va, 2)], Index(va, 3), e);
    SlotLevels(va);
    WriteLeafWalk(fr, root, tab, r, Index(va, 3), e, SlotOf(vb, 3));
    SameSlot(va, vb, 3);
    AboveSlot(va, vb, 3);
    if SlotOf(va, 3) == SlotOf(vb, 3) {
      assert TableOf(vb, 3) == r;
      PathOfTable(fr, root, tab, vb, 3);
      WalkReachesTable(fr, root, tab, r);
      assert Step(now, Walk(fr, root, r), 3, Index(va, 3)) == Leaf(3, e, Through(Walk(fr, root, r).rights, e));
    }
  }

  /** Linking a page that was free yields a tree again and no changed translation. */
  lemma LinkAcquired(fr: Frames, root: nat, tab: map<Prefix, nat>, taken: set<nat>, id: nat, r: Prefix, i: nat,
        e: Entry)
    requires Tree(fr, root, tab) && FramesTaken(tab, taken) && id !in taken
    requires r in tab && i < 512 && r.Level() < 3 && !fr[tab[r]][i].present
    requires IsTable(r.Level(), e) && e.address == id * PAGE
    ensures At(r, i) !in tab
    ensures Tree(Link(fr, tab[r], i, e), root, tab[At(r, i) := id * PAGE])
    ensures FramesTaken(tab[At(r, i) := id * PAGE], taken + {id})
    ensures OnlyFreshTables(tab, tab[At(r, i) := id * PAGE], taken)
    ensures SameWalks(fr, Link(fr, tab[r], i, e), root)
    ensures Walk(Link(fr, tab[r], i, e), root, At(r, i)) == Table(id * PAGE, Through(Walk(fr, root, r).Allowed(), e))
    ensures e.writable && !e.user && !e.nx ==> SamePaths(fr, Link(fr, tab[r], i, e), root)
  {
    FreshPage(fr, root, tab, taken, id, r, i, e);
    LinkFresh(fr, root, tab, r, i, e);
    LinkTree(fr, root, tab, r, i, e);
    LinkSameWalks(fr, root, tab, r, i, e);
    LinkWalk(fr, root, tab, r, i, e, At(r, i));
    if e.writable && !e.user && !e.nx { LinkSamePaths(fr, root, tab, r, i, e); }
    OneMoreTable(tab, taken, At(r, i), id);
  }

  /** What LinkPage does to memory is that, while addresses of pages are right. */
  lemma PageLinked(fr: Frames, root: nat, tab: map<Prefix, nat>, taken: set<nat>, id: nat, r: Prefix, i: nat,
        kind: PteType, flags: Flags, pat: PatSelect, nxAllowed: bool)
    requires Tree(fr, root, tab) && FramesTaken(tab, taken) && id !in taken && id < ADDRESSED
    requires r in tab && i < 512 && r.Level() < 3 && !fr[tab[r]][i].present
    requires kind != InvalidPteType && !IsLeafType(kind) && LevelOf(kind) == r.Level() && flags.present
    ensures var frame := AddressOf(id);
      var now := SetSlot(fr, tab[r], i, EncodeEntry(kind, frame, flags, pat, nxAllowed))[frame := ZeroFrame()];
      && Tree(now, root, tab[At(r, i) := frame]) && FramesTaken(tab[At(r, i) := frame], taken + {id})
      && OnlyFreshTables(tab, tab[At(r, i) := frame], taken) && SameWalks(fr, now, root)
      && Accounted(taken, tab[At(r, i) := frame], taken + {id})
      && LinkedWith(Walk(fr, root, r).Allowed(), Walk(now, root, At(r, i)), frame, flags, nxAllowed)
      && (flags.writable && !flags.user && !flags.nx ==> SamePaths(fr, now, root))
  {
    AddressRight(id);
    DecodeEncode(kind, id * PAGE, flags, pat, nxAllowed);
    LinkAcquired(fr, root, tab, taken, id, r, i, EncodeEntry(kind, id * PAGE, flags, pat, nxAllowed));
    assert tab[At(r, i) := id * PAGE][At(r, i)] == id * PAGE;
  }

  lemma OneMoreTable(tab: map<Prefix, nat>, taken: set<nat>, q: Prefix, id: nat)
    requires FramesTaken(tab, taken) && id !in taken && q !in tab
    ensures FramesTaken(tab[q := id * PAGE], taken + {id}) && OnlyFreshTables(tab, tab[q := id * PAGE], taken)
  {
    assert id * PAGE / PAGE == id;
  }

  lemma FreshPage(fr: Frames, root: nat, tab: map<Prefix, nat>, taken: set<nat>, id: nat, r: Prefix, i: nat, e: Entry)
    requires Tree(fr, root, tab) && FramesTaken(tab, taken) && id !in taken
    requires r in tab && i < 512 && r.Level() < 3 && !fr[tab[r]][i].present
    requires IsTable(r.Level(), e) && e.address == id * PAGE
    ensures CanLink(fr, root, tab, r, i, e)
  {
    forall q {:trigger q in tab} | q in tab ensures tab[q] != e.address { assert id * PAGE / PAGE == id; }
  }

  lemma LinkSameWalks(fr: Frames, root: nat, tab: map<Prefix, nat>, r: Prefix, i: nat, e: Entry)
    requires CanLink(fr, root, tab, r, i, e)
    ensures SameWalks(fr, Link(fr, tab[r], i, e), root)
  {
    forall q: Prefix | q.Level() == 4
      ensures Walk(Link(fr, tab[r], i, e), root, q) == Walk(fr, root, q)
    {
      LinkWalk(fr, root, tab, r, i, e, q);
    }
  }

  lemma PendingPage(was: Frames, now: Frames, root: nat, region: Regions.Region, offset: nat,
                    kernel: bool, paddrStart: nat, nxAllowed: bool)
    requires offset < region.end - region.start && region.start % LINEAR + (region.end - region.start) <= LINEAR
    requires NoLargeLeaf(was, root, region.start + offset)
    requires MapsPrefix(was, now, root, region, offset, kernel, paddrStart, nxAllowed)
    ensures NoLargeLeaf(now, root, region.start + offset)
    ensures OffsetIn(region, region.start + offset) == offset
  {
    LinearOffset(region, offset);
    assert Lookup(now, root, region.start + offset) == Lookup(was, root, region.start + offset);
  }

  lemma LinearOffset(region: Regions.Region, offset: nat)
    requires region.start % LINEAR + offset < LINEAR
    ensures OffsetIn(region, region.start + offset) == offset
  {
  }

  lemma GrownKeepsPrefix(fr0: Frames, tab0: map<Prefix, nat>, taken0: set<nat>,
                         fr1: Frames, tab1: map<Prefix, nat>, taken1: set<nat>,
                         fr2: Frames, tab2: map<Prefix, nat>, taken2: set<nat>, root: nat,
                         region: Regions.Region, offset: nat, kernel: bool, paddrStart: nat, nxAllowed: bool)
    requires MapsPrefix(fr0, fr1, root, region, offset, kernel, paddrStart, nxAllowed)
    requires taken0 <= taken1 && OnlyFreshTables(tab0, tab1, taken0) && Accounted(taken0, tab1, taken1)
    requires Grown(root, fr1, tab1, taken1, fr2, tab2, taken2)
    ensures MapsPrefix(fr0, fr2, root, region, offset, kernel, paddrStart, nxAllowed)
    ensures taken0 <= taken2 && OnlyFreshTables(tab0, tab2, taken0) && Accounted(taken0, tab2, taken2)
  {
    AccountedTwice(taken0, tab1, taken1, tab2, taken2);
    forall va: nat
      ensures Lookup(fr2, root, va) == Lookup(fr1, root, va)
    {
      SlotLevels(va);
    }
  }

  /** Writing the next page takes the mapped prefix one step further. */
  lemma PrefixExtends(was: Frames, now: Frames, after: Frames, root: nat, region: Regions.Region, offset: nat,
                      kernel: bool, paddrStart: nat, nxAllowed: bool)
    requires offset < region.end - region.start && WholePages(region) && offset % region.flags.PageSize() == 0
    requires region.start % LINEAR + (region.end - region.start) <= LINEAR
    requires MapsPrefix(was, now, root, region, offset, kernel, paddrStart, nxAllowed)
    requires PageSet(now, after, root, region.start + offset,
                     EncodeFor(region.flags, kernel, PtEntry, paddrStart + offset, nxAllowed))
    requires SamePaths(now, after, root)
    ensures MapsPrefix(was, after, root, region, offset + region.flags.PageSize(), kernel, paddrStart, nxAllowed)
    ensures offset + region.flags.PageSize() <= region.end - region.start
    ensures (offset + region.flags.PageSize()) % region.flags.PageSize() == 0
  {
    StepFits(region, offset);
    forall va: nat
      ensures Lookup(after, root, va) ==
        if Written(region, offset + region.flags.PageSize(), OffsetIn(region, va))
        then PageLeaf(was, root, va, EncodeFor(region.flags, kernel, PtEntry,
                                               PageBase(region, paddrStart, OffsetIn(region, va)), nxAllowed))
        else Lookup(was, root, va)
    {
      SamePageOffset(region, offset, va);
      StepWritten(region, offset, OffsetIn(region, va));
    }
  }

  lemma StepFits(region: Regions.Region, offset: nat)
    requires WholePages(region) && offset < region.end - region.start && offset % region.flags.PageSize() == 0
    ensures offset + region.flags.PageSize() <= region.end - region.start
    ensures (offset + region.flags.PageSize()) % region.flags.PageSize() == 0
  {
    Steps(region.start, region.end, offset, region.flags.PageSize());
  }

  lemma Steps(start: nat, end: nat, offset: nat, step: nat)
    requires 0 < step && start % step == 0 && end % step == 0 && offset % step == 0 && start + offset < end
    ensures start + offset + step <= end && (offset + step) % step == 0
  {
    MultiplesApart(step, start / step + offset / step, end / step);
    DivMod(step, offset / step + 1, 0);
  }

  lemma MultiplesApart(step: nat, j: nat, k: nat)
    requires step * j < step * k
    ensures step * j + step <= step * k
  {
    assert j >= k ==> step * j >= step * k;
    assert step * (j + 1) <= step * k;
  }

  /** One step writes the first 4 KiB of the step. */
  lemma StepWritten(region: Regions.Region, offset: nat, o: int)
    requires offset % region.flags.PageSize() == 0
    ensures Written(region, offset + region.flags.PageSize(), o) <==>
      (Written(region, offset, o) || offset <= o < offset + PAGE)
    ensures offset <= o < offset + PAGE ==> o - o % region.flags.PageSize() == offset && !Written(region, offset, o)
  {
    var step := region.flags.PageSize();
    var q := offset / step;
    assert offset == step * q;
    if offset <= o < offset + step { DivMod(step, q, o - offset); }
  }

  lemma SamePageOffset(region: Regions.Region, offset: nat, vb: nat)
    requires WholePages(region) && offset % region.flags.PageSize() == 0
    requires region.start % LINEAR + offset < LINEAR
    ensures (region.start + offset) % LINEAR / PAGE == vb % LINEAR / PAGE <==>
      offset <= OffsetIn(region, vb) < offset + PAGE
  {
    LinearOffset(region, offset);
    PageAligned(region, region.start);
    PageAligned(region, offset);
    BlockOffset(region.start % LINEAR, offset, vb % LINEAR);
  }

  lemma PageAligned(region: Regions.Region, x: nat)
    requires x % region.flags.PageSize() == 0
    ensures x % PAGE == 0 && x % LINEAR % PAGE == 0
  {
    if region.flags.largePages {
      assert x == 0x20_0000 * (x / 0x20_0000);
      assert x == PAGE * (0x200 * (x / 0x20_0000));
    }
    assert x % LINEAR == x - LINEAR * (x / LINEAR);
  }

  lemma BlockOffset(base: nat, offset: nat, x: nat)
    requires base % PAGE == 0 && offset % PAGE == 0
    ensures (base + offset) / PAGE == x / PAGE <==> offset <= x - base < offset + PAGE
  {
  }

  // ---- Demand paging ----

  /** A page acquired before the tables were extended is none of them. */
  lemma PageIsData(tab: map<Prefix, nat>, tab0: map<Prefix, nat>, taken0: set<nat>, taken1: set<nat>, id: nat)
    requires FramesTaken(tab0, taken0) && id !in taken0 && id in taken1
    requires OnlyFreshTables(tab0, tab, taken1)
    ensures id * PAGE !in tab.Values
  {
    forall q | q in tab
      ensures tab[q] != id * PAGE
    {
      assert (id * PAGE) / PAGE == id;
      assert q in tab0 ==> tab0[q] / PAGE in taken0;
    }
  }

  /** Without the data page only tables were taken. */
  lemma GivenBack(tab: map<Prefix, nat>, taken0: set<nat>, taken: set<nat>, id: nat)
    requires Accounted(taken0 + {id}, tab, taken)
    ensures Accounted(taken0, tab, taken - {id})
  {
    forall p: nat | p in taken - {id} && p !in taken0 ensures HoldsTable(tab, p) {
      assert p !in taken0 + {id};
    }
  }

  lemma GrownThenServed(root: nat, fr0: Frames, fr1: Frames, fr2: Frames, tab0: map<Prefix, nat>, tab: map<Prefix, nat>,
                        taken0: set<nat>, taken1: set<nat>, taken: set<nat>, va: nat, id: nat, e: Entry)
    requires id !in taken0 && taken1 == taken0 + {id} && e.address == id * PAGE
    requires Grown(root, fr0, tab0, taken1, fr1, tab, taken) && Tree(fr2, root, tab) && id * PAGE !in tab.Values
    requires PageSet(fr1, fr2, root, va, e) && SamePaths(fr1, fr2, root)
    ensures Tree(fr2[id * PAGE := ZeroFrame()], root, tab)
    ensures Served(root, fr0, tab0, taken0, fr2[id * PAGE := ZeroFrame()], tab, taken, va, id)
    ensures Lookup(fr2[id * PAGE := ZeroFrame()], root, va) == PageLeaf(fr0, root, va, e)
  {
    var fr3 := fr2[id * PAGE := ZeroFrame()];
    ClearDataFrame(fr2, root, tab, id * PAGE, Root);
    PathsCleared(root, fr0, fr1, fr2, tab, id * PAGE);
    forall vb: nat
      ensures Lookup(fr3, root, vb) == Lookup(fr2, root, vb)
      ensures Lookup(fr1, root, vb) == Lookup(fr0, root, vb)
    {
      SlotLevels(vb);
      ClearDataFrame(fr2, root, tab, id * PAGE, SlotOf(vb, 3));
    }
    forall vb: nat | va % LINEAR / PAGE == vb % LINEAR / PAGE ensures Lookup(fr2, root, vb) == Lookup(fr2, root, va) {
      SamePagePath(fr1, root, va, vb);
    }
    assert Lookup(fr3, root, va) == PageLeaf(fr1, root, va, e);
    assert PathRights(fr1, root, va, 3) == PathRights(fr0, root, va, 3);
  }

  lemma PathsCleared(root: nat, fr0: Frames, fr1: Frames, fr2: Frames, tab: map<Prefix, nat>, frame: nat)
    requires SamePaths(fr0, fr1, root) && SamePaths(fr1, fr2, root) && Tree(fr2, root, tab) && frame !in tab.Values
    ensures SamePaths(fr0, fr2[frame := ZeroFrame()], root)
  {
    forall vb: nat ensures PathRights(fr2[frame := ZeroFrame()], root, vb, 3) == PathRights(fr0, root, vb, 3) {
      ClearPath(fr2, root, tab, frame, vb, 3);
      assert PathRights(fr2, root, vb, 3) == PathRights(fr1, root, vb, 3);
    }
  }
}
