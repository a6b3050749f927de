/** The physical page manager at its BASIC stage (Kernel/Source/Memory/Physmemmgmt.c).
    The primary bitmap says which pages are taken, the advisory bitmap which of them are
    reserved for good. */
module Physmem {
  import opened Machine
  import opened Bitmap
  import opened PageSearch
  import opened Descriptors

  const INVALID_PAGE: nat := 0xFFFF_FFFF

  /** Below this page a page's address is right: the product is taken in 32 bits. */
  const ADDRESSED: nat := 0x10_0000

  const DWORD: nat := 0x1_0000_0000

  /** The product of KrGetPhysicalPageAddress. */
  function AddressOf(id: nat): nat {
    id * PAGE % DWORD
  }

  lemma AddressRight(id: nat)
    requires id < ADDRESSED
    ensures AddressOf(id) == id * PAGE
  {
  }

  /** The addresses of all pages are right, and no two pages share one, if and only if there are at most
      2^20 of them. */
  lemma AddressExactly(nr: nat)
    ensures nr <= ADDRESSED <==> forall id: nat | id < nr :: AddressOf(id) == id * PAGE
    ensures nr <= ADDRESSED <==> forall j: nat, k: nat | j < k < nr :: AddressOf(j) != AddressOf(k)
  {
    if nr <= ADDRESSED {
      forall id: nat | id < nr ensures AddressOf(id) == id * PAGE { AddressRight(id); }
    } else {
      assert AddressOf(0) == 0 == AddressOf(ADDRESSED);
    }
  }

  /** The bitmap shows exactly the set `s`; the bits past the last page are all set. */
  ghost predicate Shows(bits: seq<bv8>, nr: nat, s: set<nat>) {
    && |bits| == (nr + 7) / 8
    && (forall id: nat {:trigger PageBit(bits, id)} | id / 8 < |bits| :: PageBit(bits, id) <==> id >= nr || id in s)
    && (forall id | id in s :: id < nr)
  }

  /** The pages lo, lo + 1, ..., lo + n - 1. */
  ghost function Range(lo: nat, n: nat): (r: set<nat>)
    ensures forall id :: id in r <==> lo <= id < lo + n
    ensures |r| == n
  {
    if n == 0 then {} else Range(lo, n - 1) + {lo + n - 1}
  }

  lemma PaintedShows(was: seq<bv8>, now: seq<bv8>, nr: nat, s: set<nat>, lo: nat, n: nat, status: bool)
    requires Shows(was, nr, s) && lo + n <= nr
    requires Painted(was, now, lo, lo + n, status)
    ensures Shows(now, nr, if status then s + Range(lo, n) else s - Range(lo, n))
  {
  }

  lemma ByteShows(was: seq<bv8>, nr: nat, s: set<nat>, id: nat, status: bool)
    requires Shows(was, nr, s) && id < nr
    ensures Shows(was[id / 8 := WithBit(was[id / 8], id % 8, status)], nr, if status then s + {id} else s - {id})
  {
    var now := was[id / 8 := WithBit(was[id / 8], id % 8, status)];
    forall k: nat | k / 8 < |was|
      ensures PageBit(now, k) == if k == id then status else PageBit(was, k)
    {
    }
  }

  ghost function IdSet(ids: seq<nat>): set<nat> {
    set id | id in ids
  }

  lemma {:induction false} DistinctSize(ids: seq<nat>)
    requires Distinct(ids)
    ensures |IdSet(ids)| == |ids|
    decreases |ids|
  {
    if ids != [] {
      var init, last := ids[..|ids| - 1], ids[|ids| - 1];
      DistinctSize(init);
      assert ids == init + [last];
      assert last !in init by {
        assert forall k | 0 <= k < |init| :: init[k] == ids[k];
      }
      assert IdSet(ids) == IdSet(init) + {last};
    }
  }

  function StartPage(hint: nat, acquireHint: nat): nat {
    if hint != INVALID_PAGE then hint else if acquireHint != INVALID_PAGE then acquireHint else 0
  }

  /** What the first pass of initialization accumulates: the highest end of a usable region
      and the pages of the unusable ones. */
  ghost function Highest(memoryMap: seq<Descriptor>): nat {
    if memoryMap == [] then 0
    else
      var before, d := Highest(memoryMap[..|memoryMap| - 1]), memoryMap[|memoryMap| - 1];
      if IsUsable(d.kind) && d.End() > before then d.End() else before
  }

  ghost function UnusableTotal(memoryMap: seq<Descriptor>): nat {
    if memoryMap == [] then 0
    else
      var before, d := UnusableTotal(memoryMap[..|memoryMap| - 1]), memoryMap[|memoryMap| - 1];
      if IsUsable(d.kind) then before else before + d.pageCount
  }

  ghost function PageTotal(memoryMap: seq<Descriptor>): nat {
    (Highest(memoryMap) + PAGE - 1) / PAGE
  }

  /** Every usable region ends at or below the highest address, hence below the last page. */
  lemma {:induction false} HighestBounds(memoryMap: seq<Descriptor>, k: nat)
    requires k < |memoryMap| && IsUsable(memoryMap[k].kind)
    ensures memoryMap[k].End() <= Highest(memoryMap)
    ensures memoryMap[k].physicalBase % PAGE == 0 ==>
      memoryMap[k].physicalBase / PAGE + memoryMap[k].pageCount <= PageTotal(memoryMap)
    decreases |memoryMap|
  {
    if k < |memoryMap| - 1 {
      HighestBounds(memoryMap[..|memoryMap| - 1], k);
    }
  }

  method TotalPages(memoryMap: seq<Descriptor>) returns (nr: nat, unusable: nat)
    ensures nr == PageTotal(memoryMap) && unusable == UnusableTotal(memoryMap)
  {
    var highest;
    highest, unusable := Discover(memoryMap);
    nr := (highest + PAGE - 1) / PAGE;
  }

  method Discover(memoryMap: seq<Descriptor>) returns (highest: nat, unusable: nat)
    ensures highest == Highest(memoryMap) && unusable == UnusableTotal(memoryMap)
  {
    highest, unusable := 0, 0;
    var i := 0;
    while i < |memoryMap|
      invariant i <= |memoryMap|
      invariant highest == Highest(memoryMap[..i]) && unusable == UnusableTotal(memoryMap[..i])
    {
      var d := memoryMap[i];
      assert memoryMap[..i + 1][..i] == memoryMap[..i];
      if IsUsable(d.kind) {
        highest := if d.End() > highest then d.End() else highest;
      } else {
        unusable := unusable + d.pageCount;
      }
      i := i + 1;
    }
    assert memoryMap[..i] == memoryMap;
  }

  ghost predicate FitBelow(regions: seq<Descriptor>, nr: nat) {
    forall d | d in regions :: d.physicalBase / PAGE + d.pageCount <= nr
  }

  ghost predicate OnPage(d: Descriptor, id: nat) {
    d.physicalBase / PAGE <= id < d.physicalBase / PAGE + d.pageCount
  }

  ghost predicate InRegions(regions: seq<Descriptor>, id: nat) {
    exists d :: d in regions && OnPage(d, id)
  }

  /** The pages left closed after the canonical regions are opened one by one. */
  ghost function Unopened(regions: seq<Descriptor>, nr: nat): set<nat> {
    if regions == [] then Range(0, nr)
    else
      var last := regions[|regions| - 1];
      Unopened(regions[..|regions| - 1], nr) - Range(last.physicalBase / PAGE, last.pageCount)
  }

  lemma {:induction false} UnopenedMeaning(regions: seq<Descriptor>, nr: nat, id: nat)
    ensures id in Unopened(regions, nr) <==> id < nr && !InRegions(regions, id)
    decreases |regions|
  {
    if regions != [] {
      var n := |regions| - 1;
      UnopenedMeaning(regions[..n], nr, id);
      assert regions == regions[..n] + [regions[n]];
      assert InRegions(regions, id) <==> (InRegions(regions[..n], id) || OnPage(regions[n], id));
    }
  }

  /** The acquisition hint after the first `n` canonical regions: the first page of the first one that
      does not start at page 0. */
  ghost function HintAfter(canonical: seq<Descriptor>, n: nat): nat
    requires n <= |canonical|
  {
    if n == 0 then 0
    else
      var before := HintAfter(canonical, n - 1);
      if before == 0 || before == INVALID_PAGE then canonical[n - 1].physicalBase / PAGE else before
  }

  /** CloseRange's effect: a range that does not fit below NrPages is skipped. */
  ghost function WithClosed(s: set<nat>, nr: nat, base: nat, n: nat): set<nat> {
    if base + n <= nr then s + Range(base, n) else s
  }

  ghost function ClosedPages(canonical: seq<Descriptor>, kernelPage: nat, kernelPages: nat, nr: nat): set<nat> {
    WithClosed(WithClosed(Unopened(canonical, nr), nr, kernelPage, kernelPages), nr, 0, 256)
  }

  /** What initialization promises about a page below NrPages. */
  ghost predicate InitiallyFree(canonical: seq<Descriptor>, kernelPage: nat, kernelPages: nat, nr: nat, id: nat) {
    && InRegions(canonical, id)
    && !(kernelPage <= id < kernelPage + kernelPages <= nr)
    && !(id < 256 <= nr)
  }

  lemma ClosedPagesMeaning(canonical: seq<Descriptor>, kernelPage: nat, kernelPages: nat, nr: nat)
    ensures forall id: nat :: Free(ClosedPages(canonical, kernelPage, kernelPages, nr), nr, id) <==>
      id < nr && InitiallyFree(canonical, kernelPage, kernelPages, nr, id)
  {
    forall id: nat
      ensures id in Unopened(canonical, nr) <==> id < nr && !InRegions(canonical, id)
    {
      UnopenedMeaning(canonical, nr, id);
    }
  }

  lemma AllClosed(bits: seq<bv8>, nr: nat)
    requires |bits| == (nr + 7) / 8
    requires forall k | 0 <= k < |bits| :: bits[k] == Fill(true)
    ensures Shows(bits, nr, Range(0, nr))
  {
    forall id: nat | id / 8 < |bits|
      ensures PageBit(bits, id)
    {
      assert Bit(Fill(true), id % 8);
    }
  }

  lemma NothingAcquired(taken: set<nat>)
    ensures |taken - taken| == 0
  {
    assert taken - taken == {};
  }

  class PageManager {
    const nrPages: nat
    const primary: array<bv8>
    const advisory: array<bv8>
    var acquiredPages: int
    var unusablePages: nat
    var acquireHint: nat

    ghost var taken: set<nat>     // pages whose primary bit is set
    ghost var reserved: set<nat>  // pages whose advisory bit is set
    ghost const initial: set<nat> // pages unavailable since initialization

    /** The bitmaps agree with the abstract sets and reserved pages stay taken. */
    ghost predicate Consistent()
      reads this, primary, advisory
    {
      && primary != advisory
      && nrPages <= INVALID_PAGE
      && Shows(primary[..], nrPages, taken)
      && Shows(advisory[..], nrPages, reserved)
      && initial <= reserved <= taken
    }

    /** AcquiredPages counts the primary bits set since initialization. */
    ghost predicate Valid()
      reads this, primary, advisory
    {
      Consistent() && acquiredPages == |taken - initial|
    }

    /** KrInitPhysmemmgmt. Everything starts unavailable; the canonical map is opened up, then the
        kernel's own area and the first MiB are closed again, each of the two silently skipped
        when it does not fit below NrPages. The bitmap size is computed in 32 bits, hence the bound on
        the pages. Bootstrap arena exhaustion is not modelled. */
    constructor Init(memoryMap: seq<Descriptor>, canonical: seq<Descriptor>, kernelPage: nat, kernelPages: nat)
      requires PageTotal(memoryMap) <= 0xFFFF_FFF8
      requires FitBelow(canonical, PageTotal(memoryMap))
      requires kernelPage + kernelPages < 0x1_0000_0000_0000_0000
      ensures Valid() && fresh(primary) && fresh(advisory)
      ensures nrPages == PageTotal(memoryMap) && acquiredPages == 0 && unusablePages == UnusableTotal(memoryMap)
      ensures taken == reserved == initial == ClosedPages(canonical, kernelPage, kernelPages, nrPages)
      ensures acquireHint == HintAfter(canonical, |canonical|)
    {
      var nr, unusable := TotalPages(memoryMap);
      nrPages, initial := nr, ClosedPages(canonical, kernelPage, kernelPages, nr);
      primary := new bv8[(nr + 7) / 8];
      advisory := new bv8[(nr + 7) / 8];
      acquiredPages, unusablePages, acquireHint := 0, unusable, 0;
      new;
      BuildBitmaps(canonical, kernelPage, kernelPages);
    }

    method BuildBitmaps(canonical: seq<Descriptor>, kernelPage: nat, kernelPages: nat)
      requires nrPages <= INVALID_PAGE && primary != advisory
      requires primary.Length == advisory.Length == (nrPages + 7) / 8
      requires FitBelow(canonical, nrPages)
      requires kernelPage + kernelPages < 0x1_0000_0000_0000_0000
      requires initial == ClosedPages(canonical, kernelPage, kernelPages, nrPages) && acquiredPages == 0
      requires acquireHint == 0
      modifies this`reserved, this`taken, this`acquireHint, advisory, primary
      ensures Valid() && taken == reserved == initial && acquireHint == HintAfter(canonical, |canonical|)
    {
      CloseAll();
      OpenCanonical(canonical);
      CloseRange(kernelPage, kernelPages);
      CloseRange(0, 256);
      CopyToPrimary();
      taken := reserved;
      NothingAcquired(taken);
    }

    method CloseAll()
      requires advisory.Length == (nrPages + 7) / 8
      modifies this`reserved, advisory
      ensures reserved == Range(0, nrPages) && Shows(advisory[..], nrPages, reserved)
    {
      forall k | 0 <= k < advisory.Length {
        advisory[k] := Fill(true);
      }
      reserved := Range(0, nrPages);
      AllClosed(advisory[..], nrPages);
    }

    method CopyToPrimary()
      requires primary != advisory && primary.Length == advisory.Length
      modifies primary
      ensures primary[..] == advisory[..]
    {
      forall k | 0 <= k < primary.Length {
        primary[k] := advisory[k];
      }
    }

    /** The second pass of initialization: clear the bits of every canonical region and pick the
        acquisition hint. */
    method OpenCanonical(canonical: seq<Descriptor>)
      requires nrPages <= INVALID_PAGE && reserved == Range(0, nrPages) && Shows(advisory[..], nrPages, reserved)
      requires FitBelow(canonical, nrPages) && acquireHint == 0
      modifies this`reserved, this`acquireHint, advisory
      ensures Shows(advisory[..], nrPages, reserved) && reserved == Unopened(canonical, nrPages)
      ensures acquireHint == HintAfter(canonical, |canonical|)
    {
      var i := 0;
      while i < |canonical|
        invariant i <= |canonical| && acquireHint == HintAfter(canonical, i)
        invariant Shows(advisory[..], nrPages, reserved) && reserved == Unopened(canonical[..i], nrPages)
      {
        OpenRegion(canonical, i);
        i := i + 1;
      }
      assert canonical[..i] == canonical;
    }

    method OpenRegion(canonical: seq<Descriptor>, i: nat)
      requires nrPages <= INVALID_PAGE && FitBelow(canonical, nrPages) && i < |canonical|
      requires Shows(advisory[..], nrPages, reserved) && reserved == Unopened(canonical[..i], nrPages)
      requires acquireHint == HintAfter(canonical, i)
      modifies this`reserved, this`acquireHint, advisory
      ensures Shows(advisory[..], nrPages, reserved) && reserved == Unopened(canonical[..i + 1], nrPages)
      ensures acquireHint == HintAfter(canonical, i + 1)
    {
      var idPage := canonical[i].physicalBase / PAGE;
      if acquireHint == 0 || acquireHint == INVALID_PAGE {
        acquireHint := idPage;
      }
      OpenRange(idPage, canonical[i].pageCount);
      assert canonical[..i + 1][..i] == canonical[..i];
    }

    method OpenRange(base: nat, n: nat)
      requires nrPages <= INVALID_PAGE && Shows(advisory[..], nrPages, reserved) && base + n <= nrPages
      modifies this`reserved, advisory
      ensures Shows(advisory[..], nrPages, reserved) && reserved == old(reserved) - Range(base, n)
    {
      ghost var before := advisory[..];
      var _ := SetPageStatus(advisory, nrPages, base, n, false);
      PaintedShows(before, advisory[..], nrPages, reserved, base, n, false);
      reserved := reserved - Range(base, n);
    }

    method CloseRange(base: nat, n: nat)
      requires nrPages <= INVALID_PAGE && Shows(advisory[..], nrPages, reserved)
      requires base + n < 0x1_0000_0000_0000_0000
      modifies this`reserved, advisory
      ensures Shows(advisory[..], nrPages, reserved)
      ensures reserved == WithClosed(old(reserved), nrPages, base, n)
    {
      ghost var before := advisory[..];
      var ok := SetPageStatus(advisory, nrPages, base, n, true);
      if ok {
        PaintedShows(before, advisory[..], nrPages, reserved, base, n, true);
        reserved := reserved + Range(base, n);
      }
    }

    /** No page can be acquired: the search would start past the last page, or none is free. */
    ghost predicate Dry(hint: nat)
      reads this
    {
      StartPage(hint, acquireHint) >= nrPages || forall p: nat :: !Free(taken, nrPages, p)
    }

    /** As Dry, but for one page that was given back. */
    ghost predicate DryBut(id: nat)
      reads this
    {
      StartPage(INVALID_PAGE, acquireHint) >= nrPages || forall p: nat :: Free(taken, nrPages, p) ==> p == id
    }

    /** At most one page can be acquired. */
    ghost predicate NearlyDry()
      reads this
    {
      exists id: nat :: DryBut(id)
    }

    predicate IsValidPageID(id: nat) {
      id != INVALID_PAGE && id < nrPages
    }

    /** KrGetPhysicalPageAddress. */
    function PageAddress(id: nat): nat {
      if IsValidPageID(id) then AddressOf(id) else 0
    }

    method IsPhysicalPageReserved(id: nat) returns (r: bool)
      requires Consistent()
      ensures r <==> id in reserved
    {
      r := IsValidPageID(id) && Bit(advisory[id / 8], id % 8);
      assert IsValidPageID(id) ==> PageBit(advisory[..], id) == r;
    }

    /** One pass of the scan: from page `start` byte by byte to the end of the bitmap, or, on
        the wraparound pass, as long as the byte begins below `initialSearch`. */
    method Hunt(dense: bool, n: nat, start: nat, reroll: bool, initialSearch: nat, pre: seq<nat>)
      returns (found: seq<nat>)
      requires Consistent()
      requires |pre| < n && (dense ==> pre == [])
      requires start <= initialSearch < nrPages && (reroll ==> start == 0)
      ensures HuntResult(dense, taken, nrPages, n, start, PassEnd(reroll, initialSearch), pre, found)
    {
      ghost var hi := PassEnd(reroll, initialSearch);
      var pageId: nat, i: nat := start, start / 8;
      found := pre;
      while i < primary.Length && |found| < n && (!reroll || pageId < initialSearch)
        invariant pageId <= hi
        invariant |found| < n ==> i == pageId / 8 && (pageId % 8 == 0 || pageId == start)
        invariant Scanned(dense, taken, nrPages, n, pre, start, pageId, found)
        decreases primary.Length - i
      {
        pageId, found := ScanByte(dense, n, i, pageId, pre, start, found);
        i := i + 1;
      }
      HuntEnd(dense, taken, nrPages, n, pre, start, pageId, hi, found);
    }

    /** Where a pass ends when it is not satisfied earlier. */
    function PassEnd(reroll: bool, initialSearch: nat): nat {
      if reroll then RoundUp8(initialSearch) else 8 * primary.Length
    }

    /** The inner scan loop: the pages of byte `i` from `pageId` on. */
    method ScanByte(dense: bool, n: nat, i: nat, start: nat, ghost pre: seq<nat>, ghost lo: nat, found: seq<nat>)
      returns (pageId: nat, found': seq<nat>)
      requires Consistent()
      requires i == start / 8 < primary.Length
      requires |found| < n && Scanned(dense, taken, nrPages, n, pre, lo, start, found)
      ensures pageId <= 8 * i + 8 && (|found'| < n ==> pageId == 8 * i + 8)
      ensures Scanned(dense, taken, nrPages, n, pre, lo, pageId, found')
    {
      var bitOffset := start % 8;
      pageId, found' := start, found;
      while bitOffset < 8 && |found'| < n
        invariant bitOffset <= 8 && pageId == 8 * i + bitOffset
        invariant Scanned(dense, taken, nrPages, n, pre, lo, pageId, found')
      {
        ScanStep(dense, taken, nrPages, n, pre, lo, pageId, found');
        found' := ScanOne(dense, pageId, found');
        bitOffset, pageId := bitOffset + 1, pageId + 1;
      }
    }

    /** The body of the inner scan loop. */
    method ScanOne(dense: bool, pageId: nat, found: seq<nat>) returns (found': seq<nat>)
      requires Consistent()
      requires pageId / 8 < primary.Length
      ensures found' == ScanPage(dense, taken, nrPages, pageId, found)
    {
      var isReserved := IsPhysicalPageReserved(pageId);
      assert Bit(primary[pageId / 8], pageId % 8) == PageBit(primary[..], pageId);
      if Bit(primary[pageId / 8], pageId % 8) || isReserved {
        found' := if dense then [] else found;
      } else {
        found' := found + [pageId];
      }
    }

    /** Set the primary bits of the pages just found: one range when dense, else runs of at
        most two ids (the inner loop compares each id with the first of its group plus one). */
    method MarkAcquired(dense: bool, found: seq<nat>)
      requires Consistent() && found != []
      requires forall id | id in found :: id < nrPages
      requires if dense then Consecutive(found) else NoStutter(found)
      modifies primary, `taken
      ensures Consistent() && taken == old(taken) + IdSet(found)
    {
      if dense {
        ConsecutiveRange(found);
        MarkRange(found[0], |found|);
      } else {
        MarkGroups(found);
      }
    }

    method MarkGroups(found: seq<nat>)
      requires Consistent() && NoStutter(found)
      requires forall id | id in found :: id < nrPages
      modifies primary, `taken
      ensures Consistent() && taken == old(taken) + IdSet(found)
    {
      var i := 0;
      while i < |found|
        invariant i <= |found| && Consistent()
        invariant taken == old(taken) + IdSet(found[..i])
      {
        var j := GroupEnd(found, i);
        GroupRange(found, i, j);
        MarkRange(found[i], j - i);
        UnionStep(old(taken), IdSet(found[..i]), Range(found[i], j - i), IdSet(found[..j]));
        i := j;
      }
      assert found[..i] == found;
    }

    /** The inner loop of the marking: how far the group that starts at `i` reaches. */
    static method GroupEnd(found: seq<nat>, i: nat) returns (j: nat)
      requires i < |found| && NoStutter(found)
      ensures i < j <= |found| && j <= i + 2
      ensures j == i + 2 ==> found[i + 1] == found[i] + 1
      ensures j < |found| ==> found[j] != found[i] + 1
    {
      j := i + 1;
      while j < |found| && found[i] + 1 == found[j]
        invariant i < j <= |found| && j <= i + 2
        invariant j == i + 2 ==> found[i + 1] == found[i] + 1
      {
        j := j + 1;
      }
    }

    method MarkRange(base: nat, n: nat)
      requires Consistent() && base + n <= nrPages
      modifies primary, `taken
      ensures Consistent() && taken == old(taken) + Range(base, n)
    {
      var ok := SetPageStatus(primary, nrPages, base, n, true);
      PaintedShows(old(primary[..]), primary[..], nrPages, taken, base, n, true);
      taken := taken + Range(base, n);
    }

    /** The scanning half of PmAcquirePages: a pass from the start page, then a wraparound pass
        from page 0 that stops after the byte of the start page. */
    method Search(n: nat, dense: bool, start: nat) returns (found: seq<nat>)
      requires Consistent() && 0 < n && start < nrPages
      ensures AcquireResult(taken, nrPages, start, n, false, dense, false, found)
    {
      found := Hunt(dense, n, start, false, start, []);
      if start != 0 && |found| < n {
        ghost var firstPass := found;
        found := Hunt(dense, n, 0, true, start, if dense then [] else found);
        if !dense {
          WrappedScan(taken, nrPages, 8 * primary.Length, start, n, firstPass, found);
        }
      } else if !dense {
        UnwrappedScan(taken, nrPages, 8 * primary.Length, start, n, found);
      }
      if dense {
        RunsInBitmap(taken, nrPages, start, n, 8 * primary.Length);
      }
    }

    /** The scan of a request for the base only that is not dense: it counts every page it finds, but
        stores only the first. */
    method CountOnly(n: nat, start: nat, slots: array<nat>) returns (count: nat)
      requires Consistent() && 0 < n <= slots.Length && start < nrPages
      modifies slots
      ensures count == |SparseScan(taken, nrPages, start, n)|
      ensures slots[..] == BaseSlots(old(slots[..]), SparseScan(taken, nrPages, start, n))
    {
      var found := Search(n, false, start);
      count := |found|;
      if count > 0 {
        slots[0] := found[0];
      }
    }

    /** PmAcquirePages: reject senseless requests, search, then claim what was found. A request for the
        base only must be dense, or be for one page: see BaseOnlyExactly. */
    method AcquirePages(n: nat, sparse: bool, dense: bool, baseOnly: bool, hint: nat) returns (found: seq<nat>)
      requires Valid() && (baseOnly ==> dense || sparse || n <= 1)
      modifies this`acquiredPages, this`acquireHint, this`taken, primary
      ensures Consistent() && (Distinct(found) ==> Valid())
      ensures AcquireResult(old(taken), nrPages, StartPage(hint, old(acquireHint)), n, sparse, dense, baseOnly, found)
      ensures taken == old(taken) + IdSet(found)
      ensures acquiredPages == old(acquiredPages) + |found|
      ensures acquireHint == if found == [] then old(acquireHint) else found[|found| - 1] + 1
    {
      found := [];
      assert IdSet(found) == {};
      if n == 0 || (sparse && dense) || (sparse && baseOnly) {
        return;
      }
      var start := StartPage(hint, acquireHint);
      if IsValidPageID(start) {
        found := Obtain(n, dense, start);
      }
    }

    /** A search from a valid start, and the claim of what it found. */
    method Obtain(n: nat, dense: bool, start: nat) returns (found: seq<nat>)
      requires Valid() && 0 < n && start < nrPages
      modifies this`acquiredPages, this`acquireHint, this`taken, primary
      ensures Consistent() && (Distinct(found) ==> Valid())
      ensures AcquireResult(old(taken), nrPages, start, n, false, dense, false, found)
      ensures taken == old(taken) + IdSet(found)
      ensures acquiredPages == old(acquiredPages) + |found|
      ensures acquireHint == if found == [] then old(acquireHint) else found[|found| - 1] + 1
    {
      found := Search(n, dense, start);
      if found != [] {
        ResultFree(taken, nrPages, start, n, dense, found);
        Claim(dense, found);
      }
    }

    /** The claiming half of PmAcquirePages. */
    method Claim(dense: bool, found: seq<nat>)
      requires Valid() && found != []
      requires forall id | id in found :: Free(taken, nrPages, id)
      requires if dense then Consecutive(found) else NoStutter(found)
      modifies this`acquiredPages, this`acquireHint, this`taken, primary
      ensures Consistent() && (Distinct(found) ==> Valid())
      ensures taken == old(taken) + IdSet(found)
      ensures acquiredPages == old(acquiredPages) + |found|
      ensures acquireHint == found[|found| - 1] + 1
    {
      CountAcquired(taken, initial, found);
      MarkAcquired(dense, found);
      acquiredPages := acquiredPages + |found|;
      acquireHint := found[|found| - 1] + 1;
    }

    /** PmAcquirePage. From a valid start page it is next-fit and complete; from an invalid one
        (the hint past the last page, which claiming the last page leaves behind) it fails. */
    method AcquirePage(hint: nat) returns (id: nat)
      requires Valid()
      modifies this`acquiredPages, this`acquireHint, this`taken, primary
      ensures Valid()
      ensures id == INVALID_PAGE <==> old(Dry(hint))
      ensures id == INVALID_PAGE ==>
        Dry(hint) && taken == old(taken) && acquiredPages == old(acquiredPages) && acquireHint == old(acquireHint)
      ensures id != INVALID_PAGE ==>
        && FirstFree(old(taken), nrPages, StartPage(hint, old(acquireHint)), id)
        && taken == old(taken) + {id} && acquiredPages == old(acquiredPages) + 1 && acquireHint == id + 1
    {
      ghost var start := StartPage(hint, acquireHint);
      if start < nrPages {
        NextFit(taken, nrPages, start);
      }
      var found := AcquirePages(1, true, false, false, hint);
      id := if found != [] then found[0] else INVALID_PAGE;
      if found != [] {
        assert found == [id];
        assert IdSet(found) == {id};
      } else {
        assert IdSet(found) == {};
        assert taken == old(taken);
      }
    }

    /** PmRelinquishPage. Reserved pages stay. The id is checked against the bitmap, not against
        NrPages: an id that names a padding bit clears it, and only then is the state damaged. */
    method RelinquishPage(id: nat) returns (ok: bool)
      requires Valid()
      modifies this`acquiredPages, this`taken, primary
      ensures ok <==> id in old(taken) - reserved || nrPages <= id < 8 * primary.Length
      ensures Valid() <==> !(nrPages <= id < 8 * primary.Length)
      ensures taken == if ok then old(taken) - {id} else old(taken)
      ensures acquiredPages == if ok then old(acquiredPages) - 1 else old(acquiredPages)
    {
      var isReserved := IsPhysicalPageReserved(id);
      if isReserved {
        return false;
      }
      if id / 8 >= primary.Length {
        return false;
      }
      ghost var before := primary[..];
      assert Bit(primary[id / 8], id % 8) == PageBit(before, id);
      if Bit(primary[id / 8], id % 8) {
        primary[id / 8] := WithBit(primary[id / 8], id % 8, false);
        acquiredPages := acquiredPages - 1;
        ghost var was := taken;
        taken := taken - {id};
        assert primary[..] == before[id / 8 := WithBit(before[id / 8], id % 8, false)];
        if id < nrPages {
          ByteShows(before, nrPages, was, id, false);
          assert was - initial == (taken - initial) + {id};
        } else {
          assert !PageBit(primary[..], id);
        }
        return true;
      }
      return false;
    }

    /** KrReservePhysicalPage: only a taken page can be reserved, and only for good. */
    method ReservePage(id: nat) returns (ok: bool)
      requires Valid()
      modifies this`unusablePages, this`reserved, advisory
      ensures Valid()
      ensures ok <==> id in taken
      ensures reserved == if ok then old(reserved) + {id} else old(reserved)
      ensures unusablePages == if ok then old(unusablePages) + 1 else old(unusablePages)
    {
      if !IsValidPageID(id) {
        return false;
      }
      assert Bit(primary[id / 8], id % 8) == PageBit(primary[..], id);
      if !Bit(primary[id / 8], id % 8) {
        return false;
      }
      ghost var before := advisory[..];
      advisory[id / 8] := WithBit(advisory[id / 8], id % 8, true);
      assert advisory[..] == before[id / 8 := WithBit(before[id / 8], id % 8, true)];
      ByteShows(before, nrPages, reserved, id, true);
      reserved := reserved + {id};
      unusablePages := unusablePages + 1;
      return true;
    }

    /** KrSetPhysicalPageAcquisitionHint. */
    method SetAcquisitionHint(id: nat) returns (ok: bool)
      requires Valid()
      modifies `acquireHint
      ensures Valid()
      ensures ok <==> id < nrPages
      ensures acquireHint == if ok then id else old(acquireHint)
    {
      ok := IsValidPageID(id);
      if ok {
        acquireHint := id;
      }
    }
  }

  lemma UnionStep(a: set<nat>, b: set<nat>, r: set<nat>, c: set<nat>)
    requires c == b + r
    ensures (a + b) + r == a + c
  {
  }

  lemma GroupRange(found: seq<nat>, i: nat, j: nat)
    requires i < j <= |found| && j <= i + 2
    requires j == i + 2 ==> found[i + 1] == found[i] + 1
    ensures IdSet(found[..j]) == IdSet(found[..i]) + Range(found[i], j - i)
    ensures found[j - 1] in found && found[j - 1] == found[i] + (j - i) - 1
  {
    assert found[..j] == found[..i] + found[i..j];
    assert forall id :: id in found[i..j] <==> id in Range(found[i], j - i) by {
      assert found[i..j] == if j == i + 1 then [found[i]] else [found[i], found[i + 1]];
    }
  }

  lemma ConsecutiveRange(found: seq<nat>)
    requires found != [] && Consecutive(found)
    ensures IdSet(found) == Range(found[0], |found|)
    ensures found[|found| - 1] in found && found[|found| - 1] == found[0] + |found| - 1
  {
    forall id | id in Range(found[0], |found|)
      ensures id in found
    {
      assert found[id - found[0]] == id;
    }
  }

  lemma CountAcquired(taken: set<nat>, initial: set<nat>, found: seq<nat>)
    requires initial <= taken
    requires forall id | id in found :: id !in taken
    ensures Distinct(found) ==> |(taken + IdSet(found)) - initial| == |taken - initial| + |found|
  {
    if Distinct(found) {
      DistinctSize(found);
      assert (taken + IdSet(found)) - initial == (taken - initial) + IdSet(found);
      assert (taken - initial) !! IdSet(found);
    }
  }

  /** What PmAcquirePages returns, as a function of the taken set, the page it starts from and
      the request. */
  ghost predicate AcquireResult(taken: set<nat>, nr: nat, start: nat, n: nat,
                                sparse: bool, dense: bool, baseOnly: bool, found: seq<nat>) {
    if n == 0 || (sparse && (dense || baseOnly)) || start >= nr then found == []
    else if dense then DenseResult(taken, nr, start, n, found)
    else found == SparseScan(taken, nr, start, n)
  }

  /** A dense scan gives the lowest run at or above the start; if there is none, the lowest in the bytes
      from 0 through the start's byte; and if there is none either, the shorter run that ends where the
      last pass stops, which may be empty. */
  ghost predicate DenseResult(taken: set<nat>, nr: nat, start: nat, n: nat, found: seq<nat>) {
    && Consecutive(found) && (forall id | id in found :: Free(taken, nr, id))
    && if HasRun(taken, nr, start, nr, n) then |found| == n > 0 && LowestRun(taken, nr, start, n, found[0])
       else if HasRun(taken, nr, 0, RoundUp8(start), n) then |found| == n > 0 && LowestRun(taken, nr, 0, n, found[0])
       else |found| < n && TrailingRun(taken, nr, 0, LastStop(nr, start), found)
  }

  /** That leaves no choice: the request determines the pages. */
  lemma DenseDetermined(taken: set<nat>, nr: nat, start: nat, n: nat, found: seq<nat>, other: seq<nat>)
    requires start < nr && DenseResult(taken, nr, start, n, found) && DenseResult(taken, nr, start, n, other)
    ensures found == other
  {
    if |found| == n {
      assert |other| == n && found[0] == other[0];
    }
  }

  /** Where the last pass of a scan from `start` stops if it is not satisfied. */
  function LastStop(nr: nat, start: nat): nat {
    if start == 0 then 8 * ((nr + 7) / 8) else RoundUp8(start)
  }

  /** What the caller's slots hold after a request for the base only. */
  ghost function BaseSlots(slots: seq<nat>, scan: seq<nat>): seq<nat>
    requires |scan| <= |slots|
  {
    if scan == [] then slots else slots[0 := scan[0]]
  }

  /** The pages are then claimed from the slots, as many as were counted. Whatever the slots held before,
      they are the pages found, if and only if at most one was. */
  lemma BaseOnlyExactly(scan: seq<nat>, room: nat)
    requires |scan| <= room
    ensures (forall slots: seq<nat> | |slots| == room :: BaseSlots(slots, scan)[..|scan|] == scan) <==> |scan| <= 1
  {
    if |scan| > 1 {
      var slots: seq<nat> := seq(room, i => scan[1] + 1);
      assert BaseSlots(slots, scan)[..|scan|][1] != scan[1];
    }
  }

  lemma UnwrappedScan(taken: set<nat>, nr: nat, bits: nat, start: nat, n: nat, found: seq<nat>)
    requires start < nr <= bits && 0 < n
    requires HuntResult(false, taken, nr, n, start, bits, [], found)
    requires start == 0 || |found| == n
    ensures found == SparseScan(taken, nr, start, n)
  {
    PaddingNeverFree(taken, nr, start, bits);
  }

  lemma WrappedScan(taken: set<nat>, nr: nat, bits: nat, start: nat, n: nat, firstPass: seq<nat>, found: seq<nat>)
    requires 0 < start < nr <= bits
    requires HuntResult(false, taken, nr, n, start, bits, [], firstPass) && |firstPass| < n
    requires HuntResult(false, taken, nr, n, 0, RoundUp8(start), firstPass, found)
    ensures found == SparseScan(taken, nr, start, n)
  {
    PaddingNeverFree(taken, nr, start, bits);
    assert firstPass == FreeList(taken, nr, start, nr) by {
      assert [] + FreeList(taken, nr, start, nr) == FreeList(taken, nr, start, nr);
    }
  }

  lemma PaddingNeverFree(taken: set<nat>, nr: nat, start: nat, bits: nat)
    requires start <= nr <= bits
    ensures FreeList(taken, nr, start, bits) == FreeList(taken, nr, start, nr)
  {
    FreeListSplit(taken, nr, start, nr, bits);
    FreeListBeyond(taken, nr, bits);
  }

  /** The padding bits of the bitmap are never free, so runs end at the last page. */
  lemma RunsInBitmap(taken: set<nat>, nr: nat, start: nat, n: nat, bits: nat)
    requires 0 < n && start < nr <= bits
    ensures HasRun(taken, nr, start, bits, n) <==> HasRun(taken, nr, start, nr, n)
    ensures start == 0 ==> !HasRun(taken, nr, 0, RoundUp8(start), n)
  {
    forall base: nat | AllFree(taken, nr, base, n)
      ensures base + n <= nr
    {
      assert Free(taken, nr, base + n - 1);
    }
  }

  /** Whatever a scan returns was free before. */
  lemma ResultFree(taken: set<nat>, nr: nat, start: nat, n: nat, dense: bool, found: seq<nat>)
    requires 0 < n && start < nr
    requires AcquireResult(taken, nr, start, n, false, dense, false, found)
    ensures forall id | id in found :: Free(taken, nr, id)
    ensures dense || NoStutter(found)
  {
    if !dense {
      SparseFree(taken, nr, start, n);
    }
  }

  /** The outcome of one pass over [lo, hi) that entered with `pre` already listed. */
  ghost predicate HuntResult(dense: bool, taken: set<nat>, nr: nat, n: nat, lo: nat, hi: nat, pre: seq<nat>,
        found: seq<nat>) {
    && |found| <= n
    && if dense then
         && Consecutive(found) && (forall id | id in found :: Free(taken, nr, id))
         && if HasRun(taken, nr, lo, hi, n) then |found| == n > 0 && LowestRun(taken, nr, lo, n, found[0])
            else |found| < n && TrailingRun(taken, nr, lo, hi, found)
       else found == Take(pre + FreeList(taken, nr, lo, hi), n)
  }

  /** When a pass stops, it has seen everything up to `hi` or has found enough. */
  lemma HuntEnd(dense: bool, taken: set<nat>, nr: nat, n: nat, pre: seq<nat>, lo: nat, id: nat, hi: nat,
        found: seq<nat>)
    requires Scanned(dense, taken, nr, n, pre, lo, id, found) && id <= hi
    requires |found| < n ==> id == hi
    requires dense ==> 0 < n
    ensures HuntResult(dense, taken, nr, n, lo, hi, pre, found)
  {
    if dense {
      if |found| == n {
        assert lo <= id - n && (id - n) + n <= hi && AllFree(taken, nr, id - n, n);
        forall other: nat | lo <= other < id - n ensures !AllFree(taken, nr, other, n) {
          assert other + n <= id - 1;
        }
      }
    } else {
      FreeListSplit(taken, nr, lo, id, hi);
    }
  }
}
