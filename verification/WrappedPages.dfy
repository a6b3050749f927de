/** A machine on which page addresses wrap (Kernel/Source/Memory/Physmemmgmt.c), and what that does to the
    page tables (Kernel/Source/Memory/PTE.c). */
module WrappedPages {
  import opened PageSearch
  import opened Descriptors
  import opened Physmem
  import opened Pte
  import opened PageTable
  import opened Vmm

  /** The firmware map of a machine whose one usable page lies at 4 GiB. */
  function HighPage(): seq<Descriptor> {
    [Descriptor(0x1_0000_0000, 1, 0, CONVENTIONAL_MEMORY, 0)]
  }

  /** On such a machine the page acquired is page 2^20, and its address comes out as that of page 0, which
      is taken. */
  method HighPageAcquired() returns (pm: PageManager, id: nat)
    ensures pm.Valid() && id == ADDRESSED && id in pm.taken && pm.PageAddress(id) == 0 && 0 in pm.taken
  {
    pm := StartHigh();
    assert Free(pm.taken, pm.nrPages, ADDRESSED) && !Free(pm.taken, pm.nrPages, 0);
    id := pm.AcquirePage(INVALID_PAGE);
  }

  method StartHigh() returns (pm: PageManager)
    ensures fresh(pm) && fresh(pm.primary) && pm.Valid() && pm.nrPages == ADDRESSED + 1 && pm.acquireHint == ADDRESSED
    ensures forall id: nat :: Free(pm.taken, pm.nrPages, id) <==> id == ADDRESSED
  {
    HighPageFree();
    pm := new PageManager.Init(HighPage(), HighPage(), 0, 0);
  }

  lemma HighPageFree()
    ensures PageTotal(HighPage()) == ADDRESSED + 1 && FitBelow(HighPage(), ADDRESSED + 1)
    ensures HintAfter(HighPage(), 1) == ADDRESSED
    ensures forall id: nat {:trigger Free(ClosedPages(HighPage(), 0, 0, ADDRESSED + 1), ADDRESSED + 1, id)} ::
      Free(ClosedPages(HighPage(), 0, 0, ADDRESSED + 1), ADDRESSED + 1, id) <==> id == ADDRESSED
  {
    var r := HighPage();
    assert r[..0] == [];
    assert Highest(r[..0]) == 0;
    assert HintAfter(r, 0) == 0;
    ClosedPagesMeaning(r, 0, 0, ADDRESSED + 1);
    forall id: nat {:trigger InRegions(r, id)} ensures InRegions(r, id) <==> id == ADDRESSED {
      assert r[0] in r && (OnPage(r[0], id) <==> id == ADDRESSED);
    }
  }

  /** A table is acquired on that machine by an address space whose root lies at frame 0: the page that
      was free stays unused, and it is the root itself that is cleared. */
  method RootCleared(t: Tables, index: nat) returns (pm: PageManager, frame: Option<nat>)
    requires t.Valid() && t.root == 0 && index < 512
    modifies t`frames
    ensures pm.Valid() && frame == Some(0) && 0 in pm.taken
    ensures 0 in t.frames && t.frames[0] == ZeroFrame()
    ensures forall va: nat :: Lookup(t.frames, t.root, va) == Fault
  {
    pm := StartHigh();
    assert Free(pm.taken, pm.nrPages, ADDRESSED) && !Free(pm.taken, pm.nrPages, 0);
    ghost var id;
    frame, id := t.LinkPage(pm, t.root, Pml4Entry, index, TableFlags, DefaultPat);
    forall va: nat ensures Lookup(t.frames, t.root, va) == Fault { NothingFound(t.frames, va); }
  }

  lemma NothingFound(fr: Frames, va: nat)
    requires 0 in fr && fr[0] == ZeroFrame()
    ensures Lookup(fr, 0, va) == Fault
  {
    SlotLevels(va);
    assert Walk(fr, 0, SlotOf(va, 0)) == Fault;
    assert Walk(fr, 0, SlotOf(va, 1)) == Fault;
    assert Walk(fr, 0, SlotOf(va, 2)) == Fault;
  }
}
