/** Construction of the direct map (Kernel/Source/Memory/PrivateVMM/DmapInit.h). */
module DirectMap {
  import opened Machine
  import opened Pte
  import opened PageTable
  import opened Physmem
  import opened Descriptors
  import opened Vmm
  import opened DirectWindow

  /** Frame `k` of an arena. */
  function FrameAt(base: nat, k: nat): nat {
    base + k * PAGE
  }

  /** Every page acquired since is the frame of a table and reserved: none is lost, and none can be released. */
  ghost predicate TablesKept(before: set<nat>, tab: map<Prefix, nat>, taken: set<nat>, reserved: set<nat>) {
    before <= taken && taken - before <= reserved && Accounted(before, tab, taken)
  }

  /** The aligned block of one entry at `level` that page `n` lies in is part of the pages [lo, hi). */
  predicate BlockInside(level: nat, lo: nat, hi: nat, n: nat)
    requires 1 <= level <= 3
  {
    var first := n - n % PagesPer(level);
    lo <= first && first + PagesPer(level) <= hi
  }

  /** The level of the largest leaf that can map page `n` of a region of the pages [lo, hi). */
  function LargestLeaf(hugePageSupport: bool, lo: nat, hi: nat, n: nat): (level: nat)
    ensures 1 <= level <= 3
  {
    if hugePageSupport && BlockInside(1, lo, hi, n) then 1 else if BlockInside(2, lo, hi, n) then 2 else 3
  }

  /** KrDirectMappingContext with the counters of DmapInfo. Working pointers are kept as the
      physical addresses they stand for. */
  class Builder {
    const t: Tables
    const pm: PageManager
    const hugePageSupport: bool
    const barenaBase: nat
    const barenaMax: nat
    var acquired: nat       // NumTotalAcqPageStructs
    var workingCur: nat
    var lastPage: nat       // LastAcqPageID
    var hugePages: nat
    var largePages: nat
    var smallPages: nat
    var totalPages: nat
    ghost var mapped: set<nat>
    ghost const sizes: nat -> nat   // the level of the leaf that each page is to be mapped by
    ghost const before: set<nat>    // the pages taken when the construction began

    /** The opening of KrInitDirectMap: the arena is claimed as table space and zeroed. */
    constructor (t: Tables, pm: PageManager, hugePageSupport: bool, barenaBase: nat, barenaMax: nat,
                 ghost sizes: nat -> nat)
      requires t.Valid() && pm.Valid() && FramesTaken(t.tab, pm.taken) && barenaBase % PAGE == 0
      requires pm.nrPages <= ADDRESSED
      requires forall k: nat {:trigger FrameAt(barenaBase, k)} | k < barenaMax ::
        FrameAt(barenaBase, k) / PAGE in pm.taken && FrameAt(barenaBase, k) !in t.tab.Values
      modifies t`frames
      ensures Ready() && this.t == t && this.pm == pm && this.hugePageSupport == hugePageSupport && this.sizes == sizes
      ensures before == pm.taken && Kept()
      ensures hugePages == largePages == smallPages == totalPages == 0 && mapped == {}
      ensures EveryWalk(old(t.frames), t.frames, t.root)
    {
      this.t, this.pm, this.hugePageSupport, this.sizes := t, pm, hugePageSupport, sizes;
      this.barenaBase, this.barenaMax := barenaBase, barenaMax;
      acquired, workingCur, lastPage := 0, barenaBase, INVALID_PAGE;
      hugePages, largePages, smallPages, totalPages := 0, 0, 0, 0;
      mapped, before := {}, pm.taken;
      new;
      ZeroArena();
    }

    method ZeroArena()
      requires t.Valid()
      requires forall k: nat {:trigger FrameAt(barenaBase, k)} | k < barenaMax ::
        FrameAt(barenaBase, k) !in t.tab.Values
      modifies t`frames
      ensures t.Valid() && EveryWalk(old(t.frames), t.frames, t.root)
      ensures forall k: nat {:trigger FrameAt(barenaBase, k)} | k < barenaMax ::
        FrameAt(barenaBase, k) in t.frames && t.frames[FrameAt(barenaBase, k)] == ZeroFrame()
    {
      ghost var fr0 := t.frames;
      var k := 0;
      while k < barenaMax
        invariant k <= barenaMax && t.Valid() && EveryWalk(fr0, t.frames, t.root)
        invariant forall j: nat {:trigger FrameAt(barenaBase, j)} | j < k ::
          FrameAt(barenaBase, j) in t.frames && t.frames[FrameAt(barenaBase, j)] == ZeroFrame()
      {
        ZeroedSameWalks(t.frames, t.root, t.tab, FrameAt(barenaBase, k));
        ClearDataFrame(t.frames, t.root, t.tab, FrameAt(barenaBase, k), Root);
        t.frames := t.frames[FrameAt(barenaBase, k) := ZeroFrame()];
        k := k + 1;
      }
    }

    /** The arena is whole pages taken for good; its frames from the `used`th on are zeroed and
        serve no table yet. */
    ghost predicate ArenaReady(fr: Frames, tab: map<Prefix, nat>, taken: set<nat>, used: nat) {
      && barenaBase % PAGE == 0
      && (forall k: nat {:trigger FrameAt(barenaBase, k)} | k < barenaMax :: FrameAt(barenaBase, k) / PAGE in taken)
      && (forall k: nat {:trigger FrameAt(barenaBase, k)} | used <= k < barenaMax ::
            FrameAt(barenaBase, k) !in tab.Values && FrameAt(barenaBase, k) in fr &&
            fr[FrameAt(barenaBase, k)] == ZeroFrame())
    }

    ghost predicate Ready()
      reads this, t, pm, pm.primary, pm.advisory
    {
      && t.Valid() && pm.Valid() && FramesTaken(t.tab, pm.taken) && pm.nrPages <= ADDRESSED
      && ArenaReady(t.frames, t.tab, pm.taken, acquired)
      && workingCur == if acquired <= barenaMax then FrameAt(barenaBase, acquired) else lastPage * PAGE
    }

    ghost predicate Kept()
      reads t`tab, pm`taken, pm`reserved
    {
      TablesKept(before, t.tab, pm.taken, pm.reserved)
    }

    /** A frame just handed out: zeroed, taken, no table, and not one the arena still has to give. */
    ghost predicate HandedOut(frame: nat)
      reads this, t, pm
    {
      && frame % PAGE == 0 && frame / PAGE in pm.taken && frame !in t.tab.Values
      && frame in t.frames && t.frames[frame] == ZeroFrame()
      && forall k: nat {:trigger FrameAt(barenaBase, k)} | acquired <= k < barenaMax :: FrameAt(barenaBase, k) != frame
    }

    /** KrdmiAcquirePageStruct: the next arena frame, or, once the arena is exhausted, a page that
        is reserved and zeroed. Across the switch the address computed from the counters is that
        of the frame handed out. */
    method AcquireStruct() returns (frame: Option<nat>)
      requires Ready()
      modifies this`acquired, this`workingCur, this`lastPage, t`frames, pm, pm.primary, pm.advisory
      ensures Ready() && old(pm.taken) <= pm.taken && old(pm.reserved) <= pm.reserved
      ensures frame.Some? ==> pm.taken - old(pm.taken) <= {frame.value / PAGE} * pm.reserved
      ensures frame.None? ==> t.frames == old(t.frames)
      ensures frame.Some? ==> acquired == old(acquired) + 1 && frame.value == PhysicalOfLast() && HandedOut(frame.value)
      ensures frame.Some? ==> t.frames == old(t.frames)[frame.value := ZeroFrame()] && frame.value !in old(t.tab).Values
      ensures frame.None? ==> pm.Dry(INVALID_PAGE)
    {
      if acquired < barenaMax {
        frame := AcquireFromArena();
      } else {
        frame := AcquireBeyond();
      }
    }

    /** Its branch for a frame of the arena. */
    method AcquireFromArena() returns (frame: Option<nat>)
      requires Ready() && acquired < barenaMax
      modifies this`acquired, this`workingCur
      ensures Ready() && acquired == old(acquired) + 1 && frame == Some(PhysicalOfLast()) && HandedOut(frame.value)
      ensures t.frames == t.frames[frame.value := ZeroFrame()]
    {
      frame := Some(workingCur);
      workingCur := workingCur + PAGE;
      acquired := acquired + 1;
      assert frame.value == FrameAt(barenaBase, acquired - 1);
    }

    /** Its other branch, with the count of frames. */
    method AcquireBeyond() returns (frame: Option<nat>)
      requires Ready() && acquired >= barenaMax
      modifies this`acquired, this`workingCur, this`lastPage, t`frames, pm, pm.primary, pm.advisory
      ensures Ready() && old(pm.taken) <= pm.taken && old(pm.reserved) <= pm.reserved
      ensures frame.Some? ==> pm.taken - old(pm.taken) <= {frame.value / PAGE} * pm.reserved
      ensures frame.None? ==> t.frames == old(t.frames)
      ensures frame.Some? ==> acquired == old(acquired) + 1 && frame.value == PhysicalOfLast() && HandedOut(frame.value)
      ensures frame.Some? ==> t.frames == old(t.frames)[frame.value := ZeroFrame()] && frame.value !in old(t.tab).Values
      ensures frame.None? ==> pm.Dry(INVALID_PAGE)
    {
      frame := AcquireEvicted();
      if frame.Some? {
        acquired := acquired + 1;
      }
    }

    /** The branch of KrdmiAcquirePageStruct that leaves the arena behind. */
    method AcquireEvicted() returns (frame: Option<nat>)
      requires Ready() && acquired >= barenaMax
      modifies this`workingCur, this`lastPage, t`frames, pm, pm.primary, pm.advisory
      ensures t.Valid() && pm.Valid() && FramesTaken(t.tab, pm.taken) && old(pm.taken) <= pm.taken
      ensures old(pm.reserved) <= pm.reserved
      ensures frame.Some? ==> pm.taken == old(pm.taken) + {lastPage} && lastPage in pm.reserved
      ensures frame.None? ==> t.frames == old(t.frames) && workingCur == old(workingCur) && lastPage == old(lastPage)
      ensures frame.Some? ==>
        && frame.value == workingCur == lastPage * PAGE
        && lastPage in pm.taken && frame.value !in t.tab.Values
        && t.frames == old(t.frames)[frame.value := ZeroFrame()]
      ensures frame.None? ==> pm.Dry(INVALID_PAGE)
    {
      var id := pm.AcquirePage(INVALID_PAGE);
      if id == INVALID_PAGE {
        return None;
      }
      lastPage := id;
      var _ := pm.ReservePage(id);
      workingCur := pm.PageAddress(id);
      AddressRight(id);
      FreePageIsNoTable(t.tab, old(pm.taken), id);
      ClearDataFrame(t.frames, t.root, t.tab, workingCur, Root);
      t.frames := t.frames[workingCur := ZeroFrame()];
      return Some(workingCur);
    }

    /** KrdmiGetPhysicalOfLastPageStruct, from the counters alone. */
    function PhysicalOfLast(): nat
      requires 0 < acquired
      reads this
    {
      if acquired <= barenaMax then barenaBase + (acquired - 1) * PAGE % DWORD else pm.PageAddress(lastPage)
    }

    /** KrdmiGetOrAcquirePageStruct: `kind` is the type of the entries of the table wanted. None
        stands for the meltdown on exhausted memory. */
    method GetOrAcquireStruct(kind: PteType, master: nat, ghost r: Prefix, index: nat) returns (frame: Option<nat>)
      requires Ready() && r in t.tab && master == t.tab[r] && index < 512 && r.Level() < 3
      requires kind != InvalidPteType && kind != Pml4Entry && LevelOf(kind) == r.Level() + 1
      requires t.frames[master][index].present ==> IsTable(r.Level(), t.frames[master][index])
      requires Passable(t.frames, t.root, t.NxAllowed()) && Kept()
      modifies this`acquired, this`workingCur, this`lastPage, t`frames, t`tab, pm, pm.primary, pm.advisory
      ensures Ready() && old(pm.taken) <= pm.taken && Passable(t.frames, t.root, t.NxAllowed())
      ensures frame.Some? ==> Kept()
      ensures frame.Some? ==> At(r, index) in t.tab && t.tab[At(r, index)] == frame.value
      ensures OnlyFreshTables(old(t.tab), t.tab, {}) && SameWalks(old(t.frames), t.frames, t.root)
      ensures t.tab.Keys <= old(t.tab).Keys + {At(r, index)}
      ensures frame.None? ==> pm.Dry(INVALID_PAGE)
    {
      var entry := t.frames[master][index];
      if entry.present {
        return Some(entry.address);
      }
      frame := AcquireLinked(kind, master, r, index);
    }

    /** Its second half, for an empty slot. */
    method AcquireLinked(kind: PteType, master: nat, ghost r: Prefix, index: nat) returns (frame: Option<nat>)
      requires Ready() && r in t.tab && master == t.tab[r] && index < 512 && r.Level() < 3
      requires kind != InvalidPteType && kind != Pml4Entry && LevelOf(kind) == r.Level() + 1
      requires !t.frames[master][index].present && Passable(t.frames, t.root, t.NxAllowed()) && Kept()
      modifies this`acquired, this`workingCur, this`lastPage, t`frames, t`tab, pm, pm.primary, pm.advisory
      ensures Ready() && old(pm.taken) <= pm.taken && SameWalks(old(t.frames), t.frames, t.root)
      ensures Passable(t.frames, t.root, t.NxAllowed()) && (frame.Some? ==> Kept())
      ensures t.tab == if frame.Some? then old(t.tab)[At(r, index) := frame.value] else old(t.tab)
      ensures At(r, index) !in old(t.tab)
      ensures frame.None? ==> pm.Dry(INVALID_PAGE)
    {
      ghost var fr0, taken0, reserved0 := t.frames, pm.taken, pm.reserved;
      assert At(r, index) !in t.tab;
      frame := AcquireStruct();
      if frame.None? {
        return;
      }
      ZeroedSameWalks(fr0, t.root, t.tab, frame.value);
      StillKept(before, t.tab, taken0, pm.taken, reserved0, pm.reserved, At(r, index), frame.value);
      LinkNew(kind, frame.value, master, r, index, fr0);
    }

    /** Encode the pointer to the frame just handed out, and write it. */
    method LinkNew(kind: PteType, ghost frame: nat, master: nat, ghost r: Prefix, index: nat, ghost fr0: Frames)
      requires Ready() && HandedOut(frame) && r in t.tab && master == t.tab[r] && index < 512 && r.Level() < 3
      requires kind != InvalidPteType && kind != Pml4Entry && LevelOf(kind) == r.Level() + 1
      requires !t.frames[master][index].present && SameWalks(fr0, t.frames, t.root)
      requires 0 < acquired && frame == PhysicalOfLast() && Passable(t.frames, t.root, t.NxAllowed())
      modifies t`frames, t`tab
      ensures Ready() && t.tab == old(t.tab)[At(r, index) := frame] && At(r, index) !in old(t.tab)
      ensures Passable(t.frames, t.root, t.NxAllowed())
      ensures SameWalks(fr0, t.frames, t.root)
    {
      var e := EncodeParent(kind, PhysicalOfLast());
      LinkStruct(frame, master, r, index, e, fr0);
    }

    method EncodeParent(kind: PteType, base: nat) returns (e: Entry)
      requires kind != InvalidPteType && kind != Pml4Entry && base % PAGE == 0 && base < ADDRESS_LIMIT
      ensures IsTable(LevelOf(kind) - 1, e) && e.address == base && e.writable && (e.nx ==> t.NxAllowed())
    {
      e := EncodeEntry(ParentType(kind), base, LeafFlags, DefaultPat, t.NxAllowed());
      DecodeEncode(ParentType(kind), base, LeafFlags, DefaultPat, t.NxAllowed());
    }

    /** Write the pointer to a frame just handed out. */
    method LinkStruct(ghost frame: nat, master: nat, ghost r: Prefix, index: nat, e: Entry, ghost fr0: Frames)
      requires Ready() && HandedOut(frame) && r in t.tab && master == t.tab[r] && index < 512 && r.Level() < 3
      requires !t.frames[master][index].present && IsTable(r.Level(), e) && e.address == frame
      requires e.writable && (e.nx ==> t.NxAllowed()) && Passable(t.frames, t.root, t.NxAllowed())
      requires SameWalks(fr0, t.frames, t.root)
      modifies t`frames, t`tab
      ensures Ready() && t.tab == old(t.tab)[At(r, index) := frame] && At(r, index) !in old(t.tab)
      ensures Passable(t.frames, t.root, t.NxAllowed())
      ensures SameWalks(fr0, t.frames, t.root)
    {
      StructLinked(fr0, t.frames, t.root, t.tab, r, index, e, t.NxAllowed());
      t.frames := SetSlot(t.frames, master, index, e);
      t.tab := t.tab[At(r, index) := frame];
    }

    /** What holds between two mapping steps: the window maps exactly the pages of `mapped`, no
        table of it is empty, and the page counters add up. */
    ghost predicate Mapping()
      reads this, t, pm, pm.primary, pm.advisory
    {
      Tiled() && Counted()
    }

    ghost predicate Tiled()
      reads this, t, pm, pm.primary, pm.advisory
    {
      && Ready() && Exact(t.frames, t.root, mapped, t.NxAllowed(), sizes) && NoEmptyTable(t.tab, mapped)
      && Passable(t.frames, t.root, t.NxAllowed()) && Kept()
    }

    ghost predicate Counted()
      reads this
    {
      && hugePages * 0x4_0000 + largePages * 0x200 + smallPages == |mapped|
      && totalPages == hugePages + largePages + smallPages
    }

    /** In the middle of the step that maps a block at `va`: tables were added above it only. */
    ghost predicate Descending(tab0: map<Prefix, nat>, va: nat, level: nat)
      requires level <= 3
      reads this, t, pm, pm.primary, pm.advisory
    {
      && Ready() && Exact(t.frames, t.root, mapped, t.NxAllowed(), sizes) && Lookup(t.frames, t.root, va) == Fault
      && Passable(t.frames, t.root, t.NxAllowed()) && Kept()
      && TableOf(va, level) in t.tab
      && AddedAbove(tab0, t.tab, va, level)
    }

    /** One level down on the way to the leaf. */
    method Next(kind: PteType, master: nat, level: nat, index: nat, ghost va: nat, ghost tab0: map<Prefix, nat>)
      returns (frame: Option<nat>)
      requires level < 3 && Descending(tab0, va, level) && master == t.tab[TableOf(va, level)]
      requires index == Index(va, level)
      requires kind != InvalidPteType && kind != Pml4Entry && LevelOf(kind) == level + 1
      modifies this`acquired, this`workingCur, this`lastPage, t`frames, t`tab, pm, pm.primary, pm.advisory
      ensures frame.Some? ==> Descending(tab0, va, level + 1) && t.tab[TableOf(va, level + 1)] == frame.value
      ensures frame.Some? ==> SameOutside(old(t.frames), t.frames, t.root)
      ensures frame.None? ==> pm.Dry(INVALID_PAGE)
    {
      ghost var fr0, tab1, nxAllowed := t.frames, t.tab, t.NxAllowed();
      SlotLevels(va);
      PresentIsTable(t.frames, t.root, t.tab, va, level);
      frame := GetOrAcquireStruct(kind, master, TableOf(va, level), index);
      SameWalksExact(fr0, t.frames, t.root, mapped, nxAllowed, sizes);
      assert t.NxAllowed() == nxAllowed;
      AddedStep(tab0, tab1, t.tab, va, level);
    }

    method StoreLeaf(table: nat, ghost r: Prefix, index: nat, e: Entry)
      requires Ready() && r in t.tab && table == t.tab[r] && 0 < r.Level() && index < 512
      requires At(r, index) !in t.tab && !IsTable(r.Level(), e)
      modifies t`frames
      ensures Ready() && t.frames == SetSlot(old(t.frames), table, index, e)
    {
      WriteLeafTree(t.frames, t.root, t.tab, r, index, e);
      assert table in t.tab.Values;
      t.frames := SetSlot(t.frames, table, index, e);
    }

    /** The leaf of an unmapped block is written into the table reached. */
    method PutLeaf(level: nat, ghost n0: nat, paddr: nat, table: nat, index: nat, ghost tab0: map<Prefix, nat>)
      requires paddr == n0 * PAGE
      requires 1 <= level <= 3 && n0 % PagesPer(level) == 0 && n0 + PagesPer(level) <= WINDOW_PAGES
      requires Descending(tab0, VirtualOf(n0), level) && NoEmptyTable(tab0, mapped)
      requires Unmapped(mapped, n0, PagesPer(level)) && OfSize(n0, level)
      requires table == t.tab[TableOf(VirtualOf(n0), level)] && index == Index(VirtualOf(n0), level)
      modifies t`frames, this`mapped
      ensures Tiled() && |mapped| == |old(mapped)| + PagesPer(level)
      ensures Joined(old(mapped), mapped, n0, PagesPer(level)) && SameOutside(old(t.frames), t.frames, t.root)
    {
      ghost var joined := Join(mapped, n0, PagesPer(level));
      LeafStep(t.frames, t.root, tab0, t.tab, n0, level, t.NxAllowed(), sizes, mapped, joined);
      var e := EncodeEntry(LeafKind(level), paddr, LeafFlags, DefaultPat, t.NxAllowed());
      ghost var fr1, nxAllowed := SetSlot(t.frames, table, index, e), t.NxAllowed();
      assert Exact(fr1, t.root, joined, nxAllowed, sizes) && Passable(fr1, t.root, nxAllowed);
      assert SameOutside(t.frames, fr1, t.root);
      StoreLeaf(table, TableOf(VirtualOf(n0), level), index, e);
      assert t.frames == fr1 && t.NxAllowed() == nxAllowed;
      mapped := joined;
    }

    /** Bump the statistics for one page of the given level. */
    method Count(level: nat)
      requires 1 <= level <= 3 && Tiled()
      modifies this`hugePages, this`largePages, this`smallPages, this`totalPages
      ensures Tiled() && totalPages == old(totalPages) + 1
      ensures hugePages == old(hugePages) + (if level == 1 then 1 else 0)
      ensures largePages == old(largePages) + (if level == 2 then 1 else 0)
      ensures smallPages == old(smallPages) + (if level == 3 then 1 else 0)
    {
      match level {
      case 1 => hugePages := hugePages + 1;
      case 2 => largePages := largePages + 1;
      case _ => smallPages := smallPages + 1;
      }
      totalPages := totalPages + 1;
    }

    /** The leaf and its statistics: what closes each of the three cases. */
    method Finish(level: nat, ghost n0: nat, paddr: nat, table: nat, index: nat, ghost tab0: map<Prefix, nat>)
      requires 1 <= level <= 3 && paddr == n0 * PAGE && Vacant(n0, level) && Counted()
      requires Descending(tab0, VirtualOf(n0), level) && NoEmptyTable(tab0, mapped)
      requires table == t.tab[TableOf(VirtualOf(n0), level)] && index == Index(VirtualOf(n0), level)
      modifies t`frames, this`mapped, this`hugePages, this`largePages, this`smallPages, this`totalPages
      ensures Mapping() && Joined(old(mapped), mapped, n0, PagesPer(level))
      ensures SameOutside(old(t.frames), t.frames, t.root)
    {
      PutLeaf(level, n0, paddr, table, index, tab0);
      Count(level);
    }

    /** The PDPT and the PD that the large and small cases both go through. */
    method NextTwo(kind: PteType, v: VirtualIndex, ghost va: nat, ghost tab0: map<Prefix, nat>)
      returns (pd: Option<nat>)
      requires Descending(tab0, va, 0) && v.pml4 == Index(va, 0) && v.pdpt == Index(va, 1)
      requires kind == PdEntry || kind == Pd2MbEntry
      modifies this`acquired, this`workingCur, this`lastPage, t`frames, t`tab, pm, pm.primary, pm.advisory
      ensures pd.Some? ==> Descending(tab0, va, 2) && t.tab[TableOf(va, 2)] == pd.value
      ensures pd.Some? ==> SameOutside(old(t.frames), t.frames, t.root)
      ensures pd.None? ==> pm.Dry(INVALID_PAGE)
    {
      var pdpt := Next(PdptEntry, t.root, 0, v.pml4, va, tab0);
      if pdpt.None? {
        return None;
      }
      ghost var fr1 := t.frames;
      pd := Next(kind, pdpt.value, 1, v.pdpt, va, tab0);
      if pd.Some? {
        OutsideTwice(old(t.frames), fr1, t.frames, t.root);
      }
    }

    method NextThree(v: VirtualIndex, ghost va: nat, ghost tab0: map<Prefix, nat>) returns (pt: Option<nat>)
      requires Descending(tab0, va, 0) && v.pml4 == Index(va, 0) && v.pdpt == Index(va, 1) && v.pd == Index(va, 2)
      modifies this`acquired, this`workingCur, this`lastPage, t`frames, t`tab, pm, pm.primary, pm.advisory
      ensures pt.Some? ==> Descending(tab0, va, 3) && t.tab[TableOf(va, 3)] == pt.value
      ensures pt.Some? ==> SameOutside(old(t.frames), t.frames, t.root)
      ensures pt.None? ==> pm.Dry(INVALID_PAGE)
    {
      var pd := NextTwo(PdEntry, v, va, tab0);
      if pd.None? {
        return None;
      }
      ghost var fr1 := t.frames;
      pt := Next(PtEntry, pd.value, 2, v.pd, va, tab0);
      if pt.Some? {
        OutsideTwice(old(t.frames), fr1, t.frames, t.root);
      }
    }

    /** `case VADDR_HUGE`. */
    method MapHuge(ghost n0: nat, paddr: nat, v: VirtualIndex, ghost va: nat) returns (ok: bool)
      requires Mapping() && Vacant(n0, 1) && paddr == n0 * PAGE && va == VirtualOf(n0) && Descending(t.tab, va, 0)
      requires forall k | 0 <= k <= 1 :: VIndex(v, k) == Index(va, k)
      modifies this, t`frames, t`tab, pm, pm.primary, pm.advisory
      ensures ok ==> Mapping() && Joined(old(mapped), mapped, n0, PagesPer(1))
      ensures ok ==> SameOutside(old(t.frames), t.frames, t.root)
      ensures !ok ==> pm.Dry(INVALID_PAGE)
    {
      ghost var tab0 := t.tab;
      var pdpt := Next(Pdp1GbEntry, t.root, 0, v.pml4, va, tab0);
      if pdpt.None? {
        return false;
      }
      ghost var fr1 := t.frames;
      Finish(1, n0, paddr, pdpt.value, v.pdpt, tab0);
      OutsideTwice(old(t.frames), fr1, t.frames, t.root);
      return true;
    }

    /** `case VADDR_LARGE`. */
    method MapLarge(ghost n0: nat, paddr: nat, v: VirtualIndex, ghost va: nat) returns (ok: bool)
      requires Mapping() && Vacant(n0, 2) && paddr == n0 * PAGE && va == VirtualOf(n0) && Descending(t.tab, va, 0)
      requires forall k | 0 <= k <= 2 :: VIndex(v, k) == Index(va, k)
      modifies this, t`frames, t`tab, pm, pm.primary, pm.advisory
      ensures ok ==> Mapping() && Joined(old(mapped), mapped, n0, PagesPer(2))
      ensures ok ==> SameOutside(old(t.frames), t.frames, t.root)
      ensures !ok ==> pm.Dry(INVALID_PAGE)
    {
      ghost var tab0 := t.tab;
      var pd := NextTwo(Pd2MbEntry, v, va, tab0);
      if pd.None? {
        return false;
      }
      ghost var fr1 := t.frames;
      Finish(2, n0, paddr, pd.value, v.pd, tab0);
      OutsideTwice(old(t.frames), fr1, t.frames, t.root);
      return true;
    }

    /** `case VADDR_SMALL`. */
    method MapSmall(ghost n0: nat, paddr: nat, v: VirtualIndex, ghost va: nat) returns (ok: bool)
      requires Mapping() && Vacant(n0, 3) && paddr == n0 * PAGE && va == VirtualOf(n0) && Descending(t.tab, va, 0)
      requires forall k | 0 <= k <= 3 :: VIndex(v, k) == Index(va, k)
      modifies this, t`frames, t`tab, pm, pm.primary, pm.advisory
      ensures ok ==> Mapping() && Joined(old(mapped), mapped, n0, PagesPer(3))
      ensures ok ==> SameOutside(old(t.frames), t.frames, t.root)
      ensures !ok ==> pm.Dry(INVALID_PAGE)
    {
      ghost var tab0 := t.tab;
      var pt := NextThree(v, va, tab0);
      if pt.None? {
        return false;
      }
      ghost var fr1 := t.frames;
      Finish(3, n0, paddr, pt.value, v.pt, tab0);
      OutsideTwice(old(t.frames), fr1, t.frames, t.root);
      return true;
    }

    /** The block at page `n0` of one entry at `level` is aligned, in the window and unmapped. */
    ghost predicate Vacant(n0: nat, level: nat)
      requires 1 <= level <= 3
      reads this
    {
      && n0 % PagesPer(level) == 0 && n0 + PagesPer(level) <= WINDOW_PAGES && Unmapped(mapped, n0, PagesPer(level))
      && OfSize(n0, level)
    }

    /** The pages of that block are to be mapped by one such entry. */
    ghost predicate OfSize(n0: nat, level: nat)
      requires 1 <= level <= 3
    {
      forall m | n0 <= m < n0 + PagesPer(level) :: sizes(m) == level
    }

    /** What the step at page `n` chooses, with `pages` pages to go, is what the pages are to be mapped by. */
    ghost predicate OnPlan(n: nat, pages: nat) {
      OfSize(n, StepLevel(hugePageSupport, n, pages))
    }

    /** The pages [lo, hi) of a region are to be mapped by the largest leaves that fit into it. */
    ghost predicate RegionPlanned(lo: nat, hi: nat) {
      forall m: nat {:trigger sizes(m)} | lo <= m < hi :: sizes(m) == LargestLeaf(hugePageSupport, lo, hi, m)
    }

    ghost predicate Planned(regions: seq<Descriptor>) {
      Targets(regions) && forall i: nat {:trigger EntryPlanned(regions, i)} | i < |regions| :: EntryPlanned(regions, i)
    }

    ghost predicate EntryPlanned(regions: seq<Descriptor>, i: nat) {
      i < |regions|
      && RegionPlanned(regions[i].physicalBase / PAGE, regions[i].physicalBase / PAGE + regions[i].pageCount)
    }

    /** One round of the innermost loop: choose the largest leaf that fits at `paddr` and map it.
        `step` is the number of bytes mapped. */
    method MapStep(paddr: nat, size: nat, ghost n: nat, ghost pages: nat)
      returns (ok: bool, step: nat, ghost count: nat)
      requires Mapping() && Pending(n, pages) && 0 < pages && paddr == n * PAGE && size == pages * PAGE
      requires OnPlan(n, pages)
      modifies this, t`frames, t`tab, pm, pm.primary, pm.advisory
      ensures step == count * PAGE && 0 < count <= pages && count == PagesPer(StepLevel(hugePageSupport, n, pages))
      ensures ok ==> Mapping() && SameOutside(old(t.frames), t.frames, t.root)
      ensures ok ==> Joined(old(mapped), mapped, n, count)
      ensures !ok ==> pm.Dry(INVALID_PAGE)
    {
      var mode := ChooseMode(hugePageSupport, paddr, size);
      step := BytesOf(mode);
      count := PagesPer(LeafLevel(mode));
      ChosenFits(hugePageSupport, n, pages, mapped);
      UnmakeIndex(mode, VirtualOf(n));
      ok := MapMode(mode, n, paddr, Unmake(mode, DMAP_BASE + paddr));
    }

    /** `switch (ModeVA)`. */
    method MapMode(mode: AddressMode, ghost n0: nat, paddr: nat, v: VirtualIndex) returns (ok: bool)
      requires Mapping() && Vacant(n0, LeafLevel(mode)) && paddr == n0 * PAGE
      requires forall k | 0 <= k <= LeafLevel(mode) :: VIndex(v, k) == Index(VirtualOf(n0), k)
      modifies this, t`frames, t`tab, pm, pm.primary, pm.advisory
      ensures ok ==> Mapping() && SameOutside(old(t.frames), t.frames, t.root)
      ensures ok ==> Joined(old(mapped), mapped, n0, PagesPer(LeafLevel(mode)))
      ensures !ok ==> pm.Dry(INVALID_PAGE)
    {
      StartDescent(n0, LeafLevel(mode));
      match mode
      case Huge => ok := MapHuge(n0, paddr, v, VirtualOf(n0));
      case Large => ok := MapLarge(n0, paddr, v, VirtualOf(n0));
      case Small => ok := MapSmall(n0, paddr, v, VirtualOf(n0));
    }

    lemma StartDescent(n0: nat, level: nat)
      requires Mapping() && 1 <= level <= 3 && Vacant(n0, level)
      ensures Descending(t.tab, VirtualOf(n0), 0)
    {
      assert n0 !in mapped;
      SlotLevels(VirtualOf(n0));
    }

    /** The pages from `n` on lie inside the window and are not mapped yet. */
    ghost predicate Pending(n: nat, pages: nat)
      reads this
    {
      n + pages <= WINDOW_PAGES && Unmapped(mapped, n, pages)
    }

    /** KrInitDirectMap for one region. */
    method MapRegion(d: Descriptor) returns (ok: bool)
      requires Mapping() && d.physicalBase % PAGE == 0 && Pending(d.physicalBase / PAGE, d.pageCount)
      requires RegionPlanned(d.physicalBase / PAGE, d.physicalBase / PAGE + d.pageCount)
      modifies this, t`frames, t`tab, pm, pm.primary, pm.advisory
      ensures ok ==> Mapping() && Joined(old(mapped), mapped, d.physicalBase / PAGE, d.pageCount)
      ensures ok ==> SameOutside(old(t.frames), t.frames, t.root)
      ensures !ok ==> pm.Dry(INVALID_PAGE)
    {
      ok := MapPages(d.physicalBase, d.pageCount * PAGE, d.physicalBase / PAGE, d.pageCount, mapped, t.frames);
    }

    /** The loop over one region: `while (szRegionSize)`. */
    method MapPages(start: nat, bytes: nat, ghost n0: nat, ghost total: nat, ghost mapped0: set<nat>, ghost fr0: Frames)
      returns (ok: bool)
      requires start == n0 * PAGE && bytes == total * PAGE && n0 + total <= WINDOW_PAGES
      requires Unmapped(mapped0, n0, total) && Advanced(n0, 0, mapped0, fr0) && RegionPlanned(n0, n0 + total)
      modifies this, t`frames, t`tab, pm, pm.primary, pm.advisory
      ensures ok ==> Advanced(n0, total, mapped0, fr0)
      ensures !ok ==> pm.Dry(INVALID_PAGE)
    {
      var paddr, size := start, bytes;
      ghost var done := 0;
      ok := true;
      while size > 0 && ok
        invariant done <= total && paddr == (n0 + done) * PAGE && size == (total - done) * PAGE
        invariant if ok then Advanced(n0, done, mapped0, fr0) else pm.Dry(INVALID_PAGE)
        invariant Settled(hugePageSupport, n0, n0 + total, n0 + done)
        decreases total - done, ok
      {
        ok, paddr, size, done := AdvanceRegion(paddr, size, n0, total, done, mapped0, fr0);
      }
    }

    /** The first `done` pages from `n0` on have joined the `mapped0`. */
    ghost predicate Advanced(n0: nat, done: nat, mapped0: set<nat>, fr0: Frames)
      reads this, t, pm, pm.primary, pm.advisory
    {
      Mapping() && Joined(mapped0, mapped, n0, done) && SameOutside(fr0, t.frames, t.root)
    }

    /** The loop body. */
    method AdvanceRegion(paddr: nat, size: nat, ghost n0: nat, ghost total: nat, ghost done: nat,
          ghost mapped0: set<nat>, ghost fr0: Frames)
      returns (ok: bool, paddr': nat, size': nat, ghost done': nat)
      requires done < total && n0 + total <= WINDOW_PAGES
      requires paddr == (n0 + done) * PAGE && size == (total - done) * PAGE
      requires Unmapped(mapped0, n0, total) && Advanced(n0, done, mapped0, fr0)
      requires RegionPlanned(n0, n0 + total) && Settled(hugePageSupport, n0, n0 + total, n0 + done)
      modifies this, t`frames, t`tab, pm, pm.primary, pm.advisory
      ensures Settled(hugePageSupport, n0, n0 + total, n0 + done')
      ensures done < done' <= total && paddr' == (n0 + done') * PAGE && size' == (total - done') * PAGE
      ensures ok ==> Advanced(n0, done', mapped0, fr0)
      ensures !ok ==> pm.Dry(INVALID_PAGE)
    {
      var step;
      ghost var count;
      RestUnmapped(mapped0, mapped, n0, done, total);
      PlanAhead(n0, total, done);
      ok, step, count := AdvanceBy(paddr, size, n0, total, done, mapped0, fr0);
      paddr', size', done' := paddr + step, size - step, done + count;
      PagesOn(n0, done, total, count);
    }

    /** Addresses move on with pages. */
    static lemma PagesOn(n0: nat, done: nat, total: nat, count: nat)
      requires done + count <= total
      ensures (n0 + done) * PAGE + count * PAGE == (n0 + (done + count)) * PAGE
      ensures (total - done) * PAGE - count * PAGE == (total - (done + count)) * PAGE
    {
    }

    lemma PlanAhead(n0: nat, total: nat, done: nat)
      requires done < total && RegionPlanned(n0, n0 + total) && Settled(hugePageSupport, n0, n0 + total, n0 + done)
      ensures OnPlan(n0 + done, total - done)
      ensures var count := PagesPer(StepLevel(hugePageSupport, n0 + done, total - done));
        Settled(hugePageSupport, n0, n0 + total, n0 + (done + count))
    {
      var n, level := n0 + done, StepLevel(hugePageSupport, n0 + done, total - done);
      assert total - done == n0 + total - n;
      Greedy(hugePageSupport, n0, n0 + total, n);
      StepChosen(hugePageSupport, n, total - done);
      assert n + PagesPer(level) <= n0 + total;
    }

    method AdvanceBy(paddr: nat, size: nat, ghost n0: nat, ghost total: nat, ghost done: nat, ghost mapped0: set<nat>,
          ghost fr0: Frames)
      returns (ok: bool, step: nat, ghost count: nat)
      requires done < total && Pending(n0 + done, total - done) && Advanced(n0, done, mapped0, fr0)
      requires paddr == (n0 + done) * PAGE && size == (total - done) * PAGE && OnPlan(n0 + done, total - done)
      modifies this, t`frames, t`tab, pm, pm.primary, pm.advisory
      ensures step == count * PAGE && 0 < count <= total - done
      ensures count == PagesPer(StepLevel(hugePageSupport, n0 + done, total - done))
      ensures ok ==> Advanced(n0, done + count, mapped0, fr0)
      ensures !ok ==> pm.Dry(INVALID_PAGE)
    {
      ghost var mapped1 := mapped;
      ok, step, count := StepFrom(paddr, size, n0 + done, total - done, fr0);
      if ok {
        JoinedTwice(mapped0, mapped1, mapped, n0, done, count);
      }
    }

    method StepFrom(paddr: nat, size: nat, ghost n: nat, ghost pages: nat, ghost fr0: Frames)
      returns (ok: bool, step: nat, ghost count: nat)
      requires Mapping() && Pending(n, pages) && 0 < pages && paddr == n * PAGE && size == pages * PAGE
      requires SameOutside(fr0, t.frames, t.root) && OnPlan(n, pages)
      modifies this, t`frames, t`tab, pm, pm.primary, pm.advisory
      ensures step == count * PAGE && 0 < count <= pages && count == PagesPer(StepLevel(hugePageSupport, n, pages))
      ensures ok ==> Mapping() && SameOutside(fr0, t.frames, t.root) && Joined(old(mapped), mapped, n, count)
      ensures !ok ==> pm.Dry(INVALID_PAGE)
    {
      ghost var fr1 := t.frames;
      ok, step, count := MapStep(paddr, size, n, pages);
      if ok {
        OutsideTwice(fr0, fr1, t.frames, t.root);
      }
    }

    /** The direct map shows exactly the first `n` regions, and nothing outside the window has
        changed. */
    ghost predicate Shown(regions: seq<Descriptor>, n: nat, fr0: Frames)
      requires n <= |regions|
      reads this, t, pm, pm.primary, pm.advisory
    {
      Mapping() && Collected(mapped, regions, n) && SameOutside(fr0, t.frames, t.root)
    }

    /** The for loop at label Loop: the regions of `list`, which stand in `regions` from index `at`
        up to `after`. */
    method MapList(list: seq<Descriptor>, ghost regions: seq<Descriptor>, ghost at: nat, ghost after: nat,
                   ghost fr0: Frames)
      returns (ok: bool)
      requires Planned(regions) && Stands(regions, at, list) && after == at + |list| && ShownTo(regions, at, fr0)
      modifies this, t`frames, t`tab, pm, pm.primary, pm.advisory
      ensures if ok then ShownTo(regions, after, fr0) else pm.Dry(INVALID_PAGE)
    {
      var i := 0;
      ghost var n := at;
      ok := true;
      while i < |list| && ok
        invariant i <= |list| && n == at + i
        invariant if ok then ShownTo(regions, n, fr0) else pm.Dry(INVALID_PAGE)
      {
        ok, n := MapTarget(list[i], regions, n, fr0);
        i := i + 1;
      }
      assert ok ==> n == after;
    }

    method MapTarget(d: Descriptor, ghost regions: seq<Descriptor>, ghost n: nat, ghost fr0: Frames)
      returns (ok: bool, ghost n': nat)
      requires Planned(regions) && n < |regions| && regions[n] == d && Shown(regions, n, fr0)
      modifies this, t`frames, t`tab, pm, pm.primary, pm.advisory
      ensures n' == n + 1 && if ok then ShownTo(regions, n', fr0) else pm.Dry(INVALID_PAGE)
    {
      ghost var fr1, mapped1 := t.frames, mapped;
      n' := n + 1;
      FreshTarget(regions, n, mapped);
      assert EntryPlanned(regions, n);
      ok := MapRegion(d);
      if ok {
        OutsideTwice(fr0, fr1, t.frames, t.root);
        OneMoreTarget(regions, n, mapped1, mapped);
      }
    }

    /** KrInitDirectMap after the arena is set up: all canonical regions, then, by jumping back
        with a one-element map, each ACPI NVS region of the firmware map. Failure stands for the
        meltdown on exhausted memory. */
    method MapAll(canonical: seq<Descriptor>, memoryMap: seq<Descriptor>, ghost regions: seq<Descriptor>,
                  ghost places: seq<nat>, ghost fr0: Frames)
      returns (ok: bool)
      requires Shown(regions, 0, fr0) && |memoryMap| < 0x1_0000_0000
      requires Planned(regions) && Stands(regions, 0, canonical) && Places(places, memoryMap, regions)
      requires places[0] == |canonical|
      modifies this, t`frames, t`tab, pm, pm.primary, pm.advisory
      ensures ok ==> ShownTo(regions, places[|memoryMap|], fr0)
      ensures !ok ==> pm.Dry(INVALID_PAGE)
    {
      ok := MapList(canonical, regions, 0, places[0], fr0);
      if ok {
        ok := MapNvsRegions(memoryMap, regions, places, fr0);
      }
    }

    method MapNvsRegions(memoryMap: seq<Descriptor>, ghost regions: seq<Descriptor>, ghost places: seq<nat>,
                         ghost fr0: Frames) returns (ok: bool)
      requires Places(places, memoryMap, regions) && |memoryMap| < 0x1_0000_0000
      requires Planned(regions) && ShownTo(regions, places[0], fr0)
      modifies this, t`frames, t`tab, pm, pm.primary, pm.advisory
      ensures ok ==> ShownTo(regions, places[|memoryMap|], fr0)
      ensures !ok ==> pm.Dry(INVALID_PAGE)
    {
      var lastIndex: nat := Successor(0xFFFF_FFFF);
      while lastIndex < |memoryMap|
        invariant lastIndex <= |memoryMap| && ShownTo(regions, places[lastIndex], fr0)
      {
        ok := MapAt(memoryMap, lastIndex, regions, places, fr0);
        if !ok {
          return;
        }
        lastIndex := Successor(lastIndex);
      }
      ok := true;
    }

    method MapAt(memoryMap: seq<Descriptor>, k: nat, ghost regions: seq<Descriptor>, ghost places: seq<nat>,
                 ghost fr0: Frames) returns (ok: bool)
      requires Places(places, memoryMap, regions) && k < |memoryMap|
      requires Planned(regions) && ShownTo(regions, places[k], fr0)
      modifies this, t`frames, t`tab, pm, pm.primary, pm.advisory
      ensures if ok then ShownTo(regions, places[k + 1], fr0) else pm.Dry(INVALID_PAGE)
    {
      PlaceAt(places, memoryMap, regions, k);
      ok := MapIfNvs(memoryMap[k], regions, places[k], places[k + 1], fr0);
    }

    /** The increment of a 32-bit unsigned counter. */
    static function Successor(x: nat): (r: nat)
      requires x < 0x1_0000_0000
      ensures r == if x == 0xFFFF_FFFF then 0 else x + 1
    {
      (x + 1) % 0x1_0000_0000
    }

    ghost predicate ShownTo(regions: seq<Descriptor>, n: nat, fr0: Frames)
      reads this, t, pm, pm.primary, pm.advisory
    {
      n <= |regions| && Shown(regions, n, fr0)
    }

    method MapIfNvs(d: Descriptor, ghost regions: seq<Descriptor>, ghost n: nat, ghost after: nat, ghost fr0: Frames)
      returns (ok: bool)
      requires Planned(regions) && PlacedAt(d, regions, n, after) && ShownTo(regions, n, fr0)
      modifies this, t`frames, t`tab, pm, pm.primary, pm.advisory
      ensures if ok then ShownTo(regions, after, fr0) else pm.Dry(INVALID_PAGE)
    {
      ok := true;
      if d.kind == ACPI_MEMORY_NVS {
        ok := MapOne(d, regions, n, after, fr0);
      }
    }

    /** The jump back to label Loop with a one-element map. */
    method MapOne(d: Descriptor, ghost regions: seq<Descriptor>, ghost n: nat, ghost after: nat, ghost fr0: Frames)
      returns (ok: bool)
      requires Planned(regions) && n < |regions| && regions[n] == d && after == n + 1 && ShownTo(regions, n, fr0)
      modifies this, t`frames, t`tab, pm, pm.primary, pm.advisory
      ensures if ok then ShownTo(regions, after, fr0) else pm.Dry(INVALID_PAGE)
    {
      StandsAlone(regions, n, d);
      ok := MapList([d], regions, n, after, fr0);
    }
  }

  /** A frame that is zeroed already is linked by its pointer alone. */
  lemma StructLinked(fr0: Frames, fr: Frames, root: nat, tab: map<Prefix, nat>, r: Prefix, i: nat, e: Entry,
        nxAllowed: bool)
    requires Tree(fr, root, tab) && r in tab && i < 512 && r.Level() < 3 && !fr[tab[r]][i].present
    requires IsTable(r.Level(), e) && e.address !in tab.Values && e.address in fr && fr[e.address] == ZeroFrame()
    requires e.writable && (e.nx ==> nxAllowed) && Passable(fr, root, nxAllowed) && SameWalks(fr0, fr, root)
    ensures Tree(SetSlot(fr, tab[r], i, e), root, tab[At(r, i) := e.address]) && At(r, i) !in tab
    ensures Passable(SetSlot(fr, tab[r], i, e), root, nxAllowed) && SameWalks(fr0, SetSlot(fr, tab[r], i, e), root)
  {
    LinkFresh(fr, root, tab, r, i, e);
    LinkTree(fr, root, tab, r, i, e);
    LinkSameWalks(fr, root, tab, r, i, e);
    LinkPassable(fr, root, tab, r, i, e, nxAllowed);
    assert tab[r] in tab.Values;
    assert SetSlot(fr, tab[r], i, e) == Link(fr, tab[r], i, e);
  }

  /** `list` stands in `regions` from index `at` on. */
  ghost predicate Stands(regions: seq<Descriptor>, at: nat, list: seq<Descriptor>) {
    at + |list| <= |regions| && forall i {:trigger list[i]} | 0 <= i < |list| :: regions[at + i] == list[i]
  }

  lemma StandsAlone(regions: seq<Descriptor>, at: nat, d: Descriptor)
    requires at < |regions| && regions[at] == d
    ensures Stands(regions, at, [d])
  {
  }

  /** The regions that the direct map shows: the canonical ones, and of the first `n` descriptors of
      the firmware map those of kind ACPI NVS. */
  ghost function DirectMapped(canonical: seq<Descriptor>, memoryMap: seq<Descriptor>, n: nat): seq<Descriptor>
    requires n <= |memoryMap|
  {
    if n == 0 then canonical
    else
      var last := memoryMap[n - 1];
      if last.kind == ACPI_MEMORY_NVS then DirectMapped(canonical, memoryMap, n - 1) + [last]
      else DirectMapped(canonical, memoryMap, n - 1)
  }

  lemma {:induction false} CanonicalFirst(canonical: seq<Descriptor>, memoryMap: seq<Descriptor>, n: nat)
    requires n <= |memoryMap|
    ensures Stands(DirectMapped(canonical, memoryMap, n), 0, canonical)
  {
    if n > 0 { CanonicalFirst(canonical, memoryMap, n - 1); }
  }

  /** `d`, if it is ACPI NVS, is the region at `at`, and `after` is the place of what comes next. */
  ghost predicate PlacedAt(d: Descriptor, regions: seq<Descriptor>, at: nat, after: nat) {
    && (d.kind == ACPI_MEMORY_NVS ==> at < |regions| && regions[at] == d)
    && after == (if d.kind == ACPI_MEMORY_NVS then at + 1 else at) <= |regions|
  }

  /** The place of each firmware descriptor among the regions. */
  ghost predicate Places(places: seq<nat>, memoryMap: seq<Descriptor>, regions: seq<Descriptor>) {
    && |places| == |memoryMap| + 1
    && forall k {:trigger memoryMap[k]} | 0 <= k < |memoryMap| ::
         PlacedAt(memoryMap[k], regions, places[k], places[k + 1])
  }

  lemma PlaceAt(places: seq<nat>, memoryMap: seq<Descriptor>, regions: seq<Descriptor>, k: nat)
    requires Places(places, memoryMap, regions) && k < |memoryMap|
    ensures PlacedAt(memoryMap[k], regions, places[k], places[k + 1])
  {
  }

  lemma PlacesOf(canonical: seq<Descriptor>, memoryMap: seq<Descriptor>, regions: seq<Descriptor>)
    returns (places: seq<nat>)
    requires regions == DirectMapped(canonical, memoryMap, |memoryMap|)
    ensures Places(places, memoryMap, regions) && places[0] == |canonical| && places[|memoryMap|] == |regions|
  {
    places := seq(|memoryMap| + 1, k requires 0 <= k <= |memoryMap| => |DirectMapped(canonical, memoryMap, k)|);
    forall k | 0 <= k < |memoryMap| ensures PlacedAt(memoryMap[k], regions, places[k], places[k + 1]) {
      NextNvs(canonical, memoryMap, k, |memoryMap|);
    }
  }

  /** Descriptor `k` of the firmware map, if it is ACPI NVS, comes right after the regions before it. */
  lemma {:induction false} NextNvs(canonical: seq<Descriptor>, memoryMap: seq<Descriptor>, k: nat, n: nat)
    requires k < n <= |memoryMap|
    ensures var at, all := |DirectMapped(canonical, memoryMap, k)|, DirectMapped(canonical, memoryMap, n);
      && (memoryMap[k].kind == ACPI_MEMORY_NVS ==> at < |all| && all[at] == memoryMap[k])
      && |DirectMapped(canonical, memoryMap, k + 1)| <= |all|
      && |DirectMapped(canonical, memoryMap, k + 1)| == if memoryMap[k].kind == ACPI_MEMORY_NVS then at + 1 else at
  {
    if k + 1 < n { NextNvs(canonical, memoryMap, k, n - 1); }
  }

  /** The pages of the first `n` regions. */
  ghost function PagesOf(regions: seq<Descriptor>, n: nat): set<nat>
    requires n <= |regions|
  {
    if n == 0 then {} else PagesOf(regions, n - 1) + RegionPages(regions[n - 1])
  }

  ghost function AllPages(regions: seq<Descriptor>): set<nat> {
    PagesOf(regions, |regions|)
  }

  /** Regions that can be direct-mapped: page aligned, in the window, and no two on one page. */
  ghost predicate Targets(regions: seq<Descriptor>) {
    && (forall i {:trigger regions[i]} | 0 <= i < |regions| ::
          regions[i].physicalBase % PAGE == 0 && regions[i].physicalBase / PAGE + regions[i].pageCount <= WINDOW_PAGES)
    && (forall i, j {:trigger RegionPages(regions[i]), RegionPages(regions[j])} | 0 <= i < j < |regions| ::
          RegionPages(regions[i]) !! RegionPages(regions[j]))
  }

  /** The mapped pages are those of the first `n` regions. */
  ghost predicate Collected(mapped: set<nat>, regions: seq<Descriptor>, n: nat)
    requires n <= |regions|
  {
    forall p {:trigger p in mapped} :: p in mapped <==> p in PagesOf(regions, n)
  }

  lemma {:induction false} TargetApart(regions: seq<Descriptor>, n: nat, k: nat)
    requires Targets(regions) && n <= k < |regions|
    ensures PagesOf(regions, n) !! RegionPages(regions[k])
  {
    if n > 0 { TargetApart(regions, n - 1, k); }
  }

  lemma FreshTarget(regions: seq<Descriptor>, n: nat, mapped: set<nat>)
    requires Targets(regions) && n < |regions| && Collected(mapped, regions, n)
    ensures Unmapped(mapped, regions[n].physicalBase / PAGE, regions[n].pageCount)
  {
    TargetApart(regions, n, n);
    forall p | p in mapped ensures p !in RegionPages(regions[n]) { assert p in PagesOf(regions, n); }
  }

  lemma OneMoreTarget(regions: seq<Descriptor>, n: nat, was: set<nat>, now: set<nat>)
    requires n < |regions| && Collected(was, regions, n)
    requires Joined(was, now, regions[n].physicalBase / PAGE, regions[n].pageCount)
    ensures Collected(now, regions, n + 1)
  {
    forall p ensures p in PagesOf(regions, n + 1) <==> p in PagesOf(regions, n) || p in RegionPages(regions[n]) {
      assert PagesOf(regions, n + 1) == PagesOf(regions, n) + RegionPages(regions[n]);
    }
    forall p ensures p in now <==> p in PagesOf(regions, n + 1) {
      assert p in was <==> p in PagesOf(regions, n);
    }
  }

  /** The pages of a region. */
  ghost function RegionPages(d: Descriptor): set<nat> {
    Range(d.physicalBase / PAGE, d.pageCount)
  }

  /** The leaf size for the next block: 1 GiB where supported, aligned and large enough, else
      2 MiB where aligned and large enough, else 4 KiB. */
  function ChooseMode(hugePageSupport: bool, paddr: nat, size: nat): AddressMode {
    if hugePageSupport && paddr % 0x4000_0000 == 0 && size >= 0x4000_0000 then Huge
    else if paddr % 0x20_0000 == 0 && size >= 0x20_0000 then Large
    else Small
  }

  /** The level that it maps at, with `pages` pages left from page `n` on. */
  function StepLevel(hugePageSupport: bool, n: nat, pages: nat): (level: nat)
    ensures 1 <= level <= 3
  {
    LeafLevel(ChooseMode(hugePageSupport, n * PAGE, pages * PAGE))
  }

  /** A block that the loop is in the middle of does not fit into the region. */
  predicate Settled(hugePageSupport: bool, lo: nat, hi: nat, n: nat) {
    && (hugePageSupport && n % PagesPer(1) != 0 ==> !BlockInside(1, lo, hi, n))
    && (n % PagesPer(2) != 0 ==> !BlockInside(2, lo, hi, n))
  }

  lemma StepChosen(hugePageSupport: bool, n: nat, pages: nat)
    ensures var level := StepLevel(hugePageSupport, n, pages);
      && (level == 1 <==> hugePageSupport && n % PagesPer(1) == 0 && pages >= PagesPer(1))
      && (level != 1 ==> (level == 2 <==> n % PagesPer(2) == 0 && pages >= PagesPer(2)))
  {
    AddressOfBlock(n, 0x4_0000, 0x4000_0000);
    AddressOfBlock(n, 0x200, 0x20_0000);
  }

  lemma AddressOfBlock(n: nat, block: nat, bytes: nat)
    requires 0 < block && bytes == block * PAGE
    ensures n * PAGE % bytes == 0 <==> n % block == 0
  {
    var q, r := n / block, n % block;
    assert n * PAGE == bytes * q + r * PAGE by { assert n == block * q + r; assert block * q * PAGE == bytes * q; }
    assert r * PAGE < bytes by { assert (r + 1) * PAGE <= block * PAGE; }
    DivMod(bytes, q, r * PAGE);
  }

  /** Taking the largest leaf at every step maps every page by the largest leaf that fits into the region. */
  lemma Greedy(hugePageSupport: bool, lo: nat, hi: nat, n: nat)
    requires lo <= n < hi && Settled(hugePageSupport, lo, hi, n)
    ensures var level := StepLevel(hugePageSupport, n, hi - n);
      && (forall m: nat | n <= m < n + PagesPer(level) :: LargestLeaf(hugePageSupport, lo, hi, m) == level)
      && Settled(hugePageSupport, lo, hi, n + PagesPer(level))
  {
    var level := StepLevel(hugePageSupport, n, hi - n);
    StepChosen(hugePageSupport, n, hi - n);
    forall m: nat | n <= m < n + PagesPer(level) ensures LargestLeaf(hugePageSupport, lo, hi, m) == level {
      GreedyPage(hugePageSupport, lo, hi, n, level, m);
    }
    GreedySettled(hugePageSupport, lo, hi, n, level);
  }

  lemma GreedyPage(hugePageSupport: bool, lo: nat, hi: nat, n: nat, level: nat, m: nat)
    requires lo <= n < hi && Settled(hugePageSupport, lo, hi, n) && 1 <= level <= 3
    requires level == 1 <==> hugePageSupport && n % PagesPer(1) == 0 && hi - n >= PagesPer(1)
    requires level != 1 ==> (level == 2 <==> n % PagesPer(2) == 0 && hi - n >= PagesPer(2))
    requires n <= m < n + PagesPer(level)
    ensures LargestLeaf(hugePageSupport, lo, hi, m) == level
  {
    match level
    case 1 => BlockBase(n, m, 1);
    case 2 =>
      BlockBase(n, m, 2);
      SameHuge(n, m);
    case 3 =>
  }

  /** The pages of one 2 MiB block lie in one 1 GiB block. */
  lemma SameHuge(n: nat, m: nat)
    requires n % 0x200 == 0 && n <= m < n + 0x200
    ensures m - m % 0x4_0000 == n - n % 0x4_0000
  {
    assert n == 0x200 * (n / 0x200) && n % 0x4_0000 == 0x200 * (n / 0x200 % 0x200);
    DivMod(0x4_0000, n / 0x4_0000, n % 0x4_0000 + (m - n));
  }

  lemma GreedySettled(hugePageSupport: bool, lo: nat, hi: nat, n: nat, level: nat)
    requires lo <= n < hi && Settled(hugePageSupport, lo, hi, n) && 1 <= level <= 3
    requires level == 1 <==> hugePageSupport && n % PagesPer(1) == 0 && hi - n >= PagesPer(1)
    requires level != 1 ==> (level == 2 <==> n % PagesPer(2) == 0 && hi - n >= PagesPer(2))
    ensures Settled(hugePageSupport, lo, hi, n + PagesPer(level))
  {
    match level
    case 1 => BlockPassed(n);
    case 2 => LargePassed(n);
    case 3 =>
      NextSame(n + 1, 0x200);
      NextSame(n + 1, 0x4_0000);
  }

  lemma BlockPassed(n: nat)
    requires n % 0x4_0000 == 0
    ensures (n + 0x4_0000) % 0x4_0000 == 0 && (n + 0x4_0000) % 0x200 == 0
  {
    DivMod(0x4_0000, n / 0x4_0000 + 1, 0);
    DivMod(0x200, (n / 0x4_0000 + 1) * 0x200, 0);
  }

  lemma LargePassed(n: nat)
    requires n % 0x200 == 0
    ensures (n + 0x200) % 0x200 == 0
    ensures (n + 0x200) % 0x4_0000 != 0 ==> n + 0x200 - (n + 0x200) % 0x4_0000 == n - n % 0x4_0000
  {
    SameHuge(n, n + 0x1FF);
    NextSame(n + 0x200, 0x4_0000);
  }

  /** A page that starts no block lies in the block of the page before it. */
  lemma NextSame(next: nat, block: nat)
    requires 0 < block && 0 < next
    ensures next % block != 0 ==> next - next % block == (next - 1) - (next - 1) % block
  {
    if next % block != 0 { DivMod(block, next / block, next % block - 1); }
  }

  function BytesOf(mode: AddressMode): nat {
    match mode
    case Huge => 0x4000_0000
    case Large => 0x20_0000
    case Small => 0x1000
  }

  function LeafLevel(mode: AddressMode): (level: nat)
    ensures 1 <= level <= 3
  {
    match mode
    case Huge => 1
    case Large => 2
    case Small => 3
  }

  lemma ChosenCount(hugePageSupport: bool, n: nat, pages: nat)
    requires 0 < pages
    ensures var mode := ChooseMode(hugePageSupport, n * PAGE, pages * PAGE);
      && PagesPer(LeafLevel(mode)) <= pages && n % PagesPer(LeafLevel(mode)) == 0
      && BytesOf(mode) == PagesPer(LeafLevel(mode)) * PAGE
  {
  }

  /** The leaf chosen fits the pages that remain. */
  lemma ChosenFits(hugePageSupport: bool, n: nat, pages: nat, mapped: set<nat>)
    requires 0 < pages && Unmapped(mapped, n, pages)
    ensures var count := PagesPer(LeafLevel(ChooseMode(hugePageSupport, n * PAGE, pages * PAGE)));
      count <= pages && n % count == 0 && Unmapped(mapped, n, count)
    ensures var mode := ChooseMode(hugePageSupport, n * PAGE, pages * PAGE);
      BytesOf(mode) == PagesPer(LeafLevel(mode)) * PAGE
  {
    ChosenCount(hugePageSupport, n, pages);
  }

  lemma RestUnmapped(mapped0: set<nat>, mapped1: set<nat>, n0: nat, done: nat, total: nat)
    requires done <= total && Unmapped(mapped0, n0, total) && Joined(mapped0, mapped1, n0, done)
    ensures Unmapped(mapped1, n0 + done, total - done)
  {
    forall p | n0 + done <= p < n0 + total ensures p !in mapped1 { assert p !in mapped0; }
  }

  lemma JoinedTwice(mapped0: set<nat>, mapped1: set<nat>, mapped2: set<nat>, n0: nat, done: nat, count: nat)
    requires Joined(mapped0, mapped1, n0, done) && Joined(mapped1, mapped2, n0 + done, count)
    ensures Joined(mapped0, mapped2, n0, done + count)
  {
    forall p ensures p in mapped2 <==> p in mapped0 || n0 <= p < n0 + (done + count) {
      assert p in mapped1 <==> p in mapped0 || n0 <= p < n0 + done;
    }
  }

  lemma Join(mapped: set<nat>, n0: nat, count: nat) returns (joined: set<nat>)
    requires Unmapped(mapped, n0, count)
    ensures Joined(mapped, joined, n0, count) && |joined| == |mapped| + count
  {
    joined := mapped + Range(n0, count);
    assert mapped !! Range(n0, count);
  }

  lemma UnmakeIndex(mode: AddressMode, va: nat)
    ensures forall k | 0 <= k <= 3 :: VIndex(Unmake(mode, va), k) == if k <= LeafLevel(mode) then Index(va, k) else 0
  {
  }

  function VIndex(v: VirtualIndex, level: nat): nat
    requires level <= 3
  {
    if level == 0 then v.pml4 else if level == 1 then v.pdpt else if level == 2 then v.pd else v.pt
  }

  lemma OutsideTwice(fr0: Frames, fr1: Frames, fr2: Frames, root: nat)
    requires SameOutside(fr0, fr1, root) && SameOutside(fr1, fr2, root)
    ensures SameOutside(fr0, fr2, root)
  {
  }

  lemma LeafStep(fr: Frames, root: nat, tab0: map<Prefix, nat>, tab: map<Prefix, nat>, n0: nat, level: nat,
        nxAllowed: bool, sizes: nat -> nat, mapped: set<nat>, mapped': set<nat>)
    requires 1 <= level <= 3 && n0 % PagesPer(level) == 0 && n0 + PagesPer(level) <= WINDOW_PAGES
    requires Tree(fr, root, tab) && TableOf(VirtualOf(n0), level) in tab && AddedAbove(tab0, tab, VirtualOf(n0), level)
    requires Exact(fr, root, mapped, nxAllowed, sizes) && Passable(fr, root, nxAllowed)
    requires NoEmptyTable(tab0, mapped) && Unmapped(mapped, n0, PagesPer(level))
    requires Joined(mapped, mapped', n0, PagesPer(level))
    requires forall m | n0 <= m < n0 + PagesPer(level) :: sizes(m) == level
    ensures var r, index := TableOf(VirtualOf(n0), level), Index(VirtualOf(n0), level);
      var e := EncodeEntry(LeafKind(level), n0 * PAGE, LeafFlags, DefaultPat, nxAllowed);
      && r.Level() == level && index < 512 && At(r, index) !in tab && !IsTable(level, e)
      && Exact(SetSlot(fr, tab[r], index, e), root, mapped', nxAllowed, sizes)
      && Passable(SetSlot(fr, tab[r], index, e), root, nxAllowed)
      && SameOutside(fr, SetSlot(fr, tab[r], index, e), root)
    ensures NoEmptyTable(tab, mapped')
  {
    var va := VirtualOf(n0);
    SlotLevels(va);
    UnmappedSlot(tab0, mapped, n0, level);
    BlockLeaf(n0, level, nxAllowed);
    assert At(TableOf(va, level), Index(va, level)) == SlotOf(va, level);
    LeafExact(fr, SetSlot(fr, tab[TableOf(va, level)], Index(va, level), BlockEntry(level, n0, nxAllowed)), root, tab,
      n0, level, nxAllowed, sizes, mapped, mapped');
    LeafPassable(fr, root, tab, TableOf(va, level), Index(va, level), BlockEntry(level, n0, nxAllowed), nxAllowed);
    NoEmptyExtends(tab0, tab, mapped, mapped', n0, PagesPer(level));
  }

  /** Beyond `tab0` there are only tables on the path of `va`, none below `level`. */
  ghost predicate AddedAbove(tab0: map<Prefix, nat>, tab: map<Prefix, nat>, va: nat, level: nat) {
    forall q {:trigger q in tab} | q in tab :: q in tab0 || (q.Above(SlotOf(va, 3)) && q.Level() <= level)
  }

  lemma AddedStep(tab0: map<Prefix, nat>, tab1: map<Prefix, nat>, tab2: map<Prefix, nat>, va: nat, level: nat)
    requires level < 3 && AddedAbove(tab0, tab1, va, level) && tab2.Keys <= tab1.Keys + {SlotOf(va, level)}
    ensures AddedAbove(tab0, tab2, va, level + 1)
  {
    SlotLevels(va);
    AboveSlot(va, va, level);
    forall q | q in tab2
      ensures q in tab1 || q == SlotOf(va, level)
    {
      assert q in tab2.Keys;
    }
  }

  /** A page taken is accounted for once its frame is linked. */
  lemma StillKept(before: set<nat>, tab: map<Prefix, nat>, taken: set<nat>, now: set<nat>, reserved: set<nat>,
        reserved': set<nat>, q: Prefix, frame: nat)
    requires Accounted(before, tab, taken) && taken - before <= reserved <= reserved'
    requires now - taken <= {frame / PAGE} * reserved' && q !in tab && frame % PAGE == 0
    ensures Accounted(before, tab[q := frame], now) && now - before <= reserved'
  {
    forall p: nat | p in now - before ensures p in reserved' { assert p in taken - before || p in now - taken; }
    forall p: nat | p in now && p !in before ensures HoldsTable(tab[q := frame], p) {
      if p in taken {
        assert HoldsTable(tab, p);
        var q' :| q' in tab && tab[q'] == p * PAGE;
        assert tab[q := frame][q'] == p * PAGE;
      } else {
        assert p in now - taken;
        assert tab[q := frame][q] == p * PAGE;
      }
    }
  }

  lemma ZeroedSameWalks(fr: Frames, root: nat, tab: map<Prefix, nat>, frame: nat)
    requires Tree(fr, root, tab) && frame !in tab.Values
    ensures EveryWalk(fr, fr[frame := ZeroFrame()], root)
  {
    forall q: Prefix
      ensures Walk(fr[frame := ZeroFrame()], root, q) == Walk(fr, root, q)
    {
      ClearDataFrame(fr, root, tab, frame, q);
    }
  }

  lemma FreePageIsNoTable(tab: map<Prefix, nat>, taken: set<nat>, id: nat)
    requires FramesTaken(tab, taken) && id !in taken
    ensures id * PAGE !in tab.Values
  {
    forall q | q in tab
      ensures tab[q] != id * PAGE
    {
      assert (id * PAGE) / PAGE == id;
    }
  }
}
