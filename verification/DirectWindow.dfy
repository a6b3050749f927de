/** The direct-map window: linear addresses DMAP_BASE + p for the physical addresses p below
    255 * 2^39, and what it means that the tables map it exactly. */
module DirectWindow {
  import opened Machine
  import opened Pte
  import opened PageTable

  const DMAP_BASE: nat := 0xFFFF_8000_0000_0000      // KR_MAKE_VIRTUAL(256, 0, 0, 0, 0)
  const WINDOW_PAGES: nat := 255 * 0x800_0000        // PML4 slots 256 to 510

  /** The virtual address of physical page `n`. */
  function VirtualOf(n: nat): nat {
    DMAP_BASE + n * PAGE
  }

  /** 4 KiB pages one entry at `level` covers. */
  function PagesPer(level: nat): nat
    requires 1 <= level <= 3
  {
    match level
    case 1 => 0x4_0000
    case 2 => 0x200
    case 3 => 1
  }

  const LeafFlags := Flags(true, true, false, false, true)

  function LeafKind(level: nat): PteType
    requires 1 <= level <= 3
  {
    match level
    case 1 => Pdp1GbEntry
    case 2 => Pd2MbEntry
    case 3 => PtEntry
  }

  /** The leaf that maps the aligned block `n` lies in. */
  function BlockEntry(level: nat, n: nat, nxAllowed: bool): Entry
    requires 1 <= level <= 3
  {
    EncodeEntry(LeafKind(level), (n - n % PagesPer(level)) * PAGE, LeafFlags, DefaultPat, nxAllowed)
  }

  /** A walk that ends in the right leaf for physical page `n`, at the level `size`; the page is for the
      kernel's data. */
  predicate MapsPage(at: Arrival, n: nat, nxAllowed: bool, size: nat) {
    && at.Leaf? && at.level == size && 1 <= size <= 3 && at.entry == BlockEntry(size, n, nxAllowed)
    && at.rights == Rights(true, false, nxAllowed)
  }

  /** Exactly the pages of `mapped` are mapped in the window, each to itself and by a leaf of the level
      that `sizes` gives. */
  ghost predicate Exact(fr: Frames, root: nat, mapped: set<nat>, nxAllowed: bool, sizes: nat -> nat) {
    forall n: nat {:trigger VirtualOf(n)} | n < WINDOW_PAGES ::
      if n in mapped then MapsPage(Lookup(fr, root, VirtualOf(n)), n, nxAllowed, sizes(n))
      else Lookup(fr, root, VirtualOf(n)) == Fault
  }

  /** The tables of the window do not forbid writing, nor fetching where a leaf could not. */
  ghost predicate Passable(fr: Frames, root: nat, nxAllowed: bool) {
    forall q: Prefix {:trigger Walk(fr, root, q)} | q.At? && 256 <= TopIndex(q) <= 510 && Walk(fr, root, q).Table? ::
      Lets(Walk(fr, root, q).rights, nxAllowed)
  }

  predicate Lets(r: Rights, nxAllowed: bool) {
    r.writable && (r.noExecute ==> nxAllowed)
  }

  /** Every walk, to tables too, is as it was. */
  ghost predicate EveryWalk(was: Frames, now: Frames, root: nat) {
    forall q: Prefix {:trigger Walk(now, root, q)} :: Walk(now, root, q) == Walk(was, root, q)
  }

  predicate InWindow(va: nat) {
    256 <= Index(va, 0) <= 510
  }

  /** Translations of addresses outside the window. */
  ghost predicate SameOutside(was: Frames, now: Frames, root: nat) {
    forall va: nat {:trigger Lookup(now, root, va)} | !InWindow(va) :: Lookup(now, root, va) == Lookup(was, root, va)
  }

  function TopIndex(q: Prefix): nat {
    if q.Root? then 0 else if q.up.Root? then q.index else TopIndex(q.up)
  }

  /** `now` is `was` and the `n` pages from `lo` on. */
  ghost predicate Joined(was: set<nat>, now: set<nat>, lo: nat, n: nat) {
    forall p {:trigger p in now} {:trigger p in was} :: p in now <==> p in was || lo <= p < lo + n
  }

  /** None of the `n` pages from `lo` on is mapped. */
  ghost predicate Unmapped(mapped: set<nat>, lo: nat, n: nat) {
    forall p {:trigger p in mapped} | lo <= p < lo + n :: p !in mapped
  }

  /** No table of the window is empty: some mapped page is reached through it. */
  ghost predicate NoEmptyTable(tab: map<Prefix, nat>, mapped: set<nat>) {
    forall q {:trigger q in tab} | q in tab && q.At? && 256 <= TopIndex(q) <= 510 ::
      exists n: nat :: n in mapped && n < WINDOW_PAGES && q.Above(SlotOf(VirtualOf(n), 3))
  }

  // ---- Arithmetic of the window ----

  lemma WindowLinear(n: nat)
    requires n < WINDOW_PAGES
    ensures VirtualOf(n) % LINEAR == 0x8000_0000_0000 + n * PAGE
    ensures InWindow(VirtualOf(n))
  {
    assert VirtualOf(n) == 0xFFFF * LINEAR + (0x8000_0000_0000 + n * PAGE);
    IndexSplit(VirtualOf(n), 0);
  }

  /** The window is the higher half up to the slot of the kernel. */
  lemma WindowExactly(va: nat)
    requires 0xFFFF_8000_0000_0000 <= va < 0x1_0000_0000_0000_0000
    ensures InWindow(va) <==> va < 0xFFFF_FF80_0000_0000
    ensures VirtualOf(0) == 0xFFFF_8000_0000_0000 && VirtualOf(WINDOW_PAGES) == 0xFFFF_FF80_0000_0000
  {
    var slot := va / 0x80_0000_0000;
    assert slot == 0xFFFF * 0x200 + Index(va, 0);
  }

  /** Two pages share their slot at a level exactly when they lie in one aligned block. */
  lemma SameBlock(n: nat, m: nat, level: nat)
    requires 1 <= level <= 3 && n < WINDOW_PAGES && m < WINDOW_PAGES
    ensures SlotOf(VirtualOf(n), level) == SlotOf(VirtualOf(m), level) <==> n / PagesPer(level) == m / PagesPer(level)
  {
    WindowLinear(n);
    WindowLinear(m);
    SameSlot(VirtualOf(n), VirtualOf(m), level);
    BlockNumber(n, level);
    BlockNumber(m, level);
  }

  lemma BlockNumber(n: nat, level: nat)
    requires 1 <= level <= 3
    ensures (0x8000_0000_0000 + n * PAGE) / Span(level) == 0x8000_0000_0000 / Span(level) + n / PagesPer(level)
  {
    match level
    case 1 => Aligned(n, 0x4_0000, 0x4000_0000, 0x2_0000);
    case 2 => Aligned(n, 0x200, 0x20_0000, 0x400_0000);
    case 3 => DivMod(PAGE, 0x8_0000_0000 + n, 0);
  }

  /** Page `n` in blocks of `pages` pages, counted from `first` blocks on. */
  lemma Aligned(n: nat, pages: nat, span: nat, first: nat)
    requires 0 < pages && span == pages * PAGE
    ensures (span * first + n * PAGE) / span == first + n / pages
  {
    var q, r := n / pages, n % pages;
    assert n * PAGE == span * q + r * PAGE by { assert n == pages * q + r; assert pages * q * PAGE == span * q; }
    assert r * PAGE < span by { assert (r + 1) * PAGE <= pages * PAGE; }
    assert span * first + n * PAGE == span * (first + q) + r * PAGE;
    DivMod(span, first + q, r * PAGE);
  }

  lemma AlignedBlock(n: nat, m: nat, level: nat)
    requires 1 <= level <= 3 && n % PagesPer(level) == 0
    ensures m / PagesPer(level) == n / PagesPer(level) <==> n <= m < n + PagesPer(level)
  {
    match level
    case 1 =>
    case 2 =>
    case 3 =>
  }

  lemma BlockBase(n: nat, m: nat, level: nat)
    requires 1 <= level <= 3 && n % PagesPer(level) == 0 && n <= m < n + PagesPer(level)
    ensures m - m % PagesPer(level) == n
  {
    var q := n / PagesPer(level);
    assert n == PagesPer(level) * q;
    DivMod(PagesPer(level), q, m - n);
  }

  lemma {:induction false} TopOfSlot(va: nat, level: nat)
    requires level <= 3
    ensures TopIndex(SlotOf(va, level)) == Index(va, 0)
  {
    if level > 0 {
      TopOfSlot(va, level - 1);
    }
  }

  /** A page for the kernel's data: it can be written, user mode is kept out, instructions are fetched from
      it only if nothing can prevent that, and it is cached as ordinary memory. */
  predicate KernelData(at: Arrival, nxAllowed: bool) {
    && at.Leaf? && at.rights.writable && !at.rights.user && at.rights.noExecute == nxAllowed && !at.entry.global
    && LeafType(at.level, at.entry) == WriteBack
  }

  /** An exact window translates every byte of a mapped page to itself, for the kernel's data, and no other
      byte. */
  lemma ExactTranslation(fr: Frames, root: nat, mapped: set<nat>, nxAllowed: bool, sizes: nat -> nat, p: nat)
    requires Exact(fr, root, mapped, nxAllowed, sizes) && p < WINDOW_PAGES * PAGE
    ensures Translate(fr, root, DMAP_BASE + p) == if p / PAGE in mapped then Some(p) else None
    ensures p / PAGE in mapped ==> KernelData(Lookup(fr, root, DMAP_BASE + p), nxAllowed)
    ensures p / PAGE in mapped ==> Lookup(fr, root, DMAP_BASE + p).level == sizes(p / PAGE)
  {
    var n := p / PAGE;
    SamePageVirtual(p);
    PageTranslation(fr, root, n, p, n in mapped, nxAllowed, sizes(n));
  }

  lemma PageTranslation(fr: Frames, root: nat, n: nat, p: nat, isMapped: bool, nxAllowed: bool, size: nat)
    requires n == p / PAGE && n < WINDOW_PAGES
    requires SlotOf(DMAP_BASE + p, 3) == SlotOf(VirtualOf(n), 3)
    requires isMapped ==> MapsPage(Lookup(fr, root, VirtualOf(n)), n, nxAllowed, size)
    requires !isMapped ==> Lookup(fr, root, VirtualOf(n)) == Fault
    ensures Translate(fr, root, DMAP_BASE + p) == if isMapped then Some(p) else None
    ensures isMapped ==> KernelData(Lookup(fr, root, DMAP_BASE + p), nxAllowed)
    ensures isMapped ==> Lookup(fr, root, DMAP_BASE + p).level == size
  {
    assert Lookup(fr, root, DMAP_BASE + p) == Lookup(fr, root, VirtualOf(n));
    if isMapped {
      MappedTarget(Lookup(fr, root, VirtualOf(n)), n, p, nxAllowed, size);
    }
  }

  lemma MappedTarget(at: Arrival, n: nat, p: nat, nxAllowed: bool, size: nat)
    requires n == p / PAGE && n < WINDOW_PAGES && MapsPage(at, n, nxAllowed, size)
    ensures Target(at, DMAP_BASE + p) == Some(p) && KernelData(at, nxAllowed)
  {
    BlockTranslation(n, p, size, nxAllowed);
  }

  lemma SamePageVirtual(p: nat)
    requires p < WINDOW_PAGES * PAGE
    ensures SlotOf(DMAP_BASE + p, 3) == SlotOf(VirtualOf(p / PAGE), 3)
  {
    var n, low := p / PAGE, 0x8000_0000_0000 + p;
    var va, vb := DMAP_BASE + p, VirtualOf(p / PAGE);
    WindowLinear(n);
    DivMod(LINEAR, 0xFFFF, low);
    assert va == LINEAR * 0xFFFF + low;
    DivMod(PAGE, 0x8_0000_0000 + n, p % PAGE);
    DivMod(PAGE, 0x8_0000_0000 + n, 0);
    assert low == PAGE * (0x8_0000_0000 + n) + p % PAGE;
    SameSlot(va, vb, 3);
  }

  lemma BlockTranslation(n: nat, p: nat, level: nat, nxAllowed: bool)
    requires 1 <= level <= 3 && n == p / PAGE < WINDOW_PAGES
    ensures LeafBase(level, BlockEntry(level, n, nxAllowed)) + (DMAP_BASE + p) % Span(level) == p
    ensures LeafType(level, BlockEntry(level, n, nxAllowed)) == WriteBack && !BlockEntry(level, n, nxAllowed).global
  {
    var base := (n - n % PagesPer(level)) * PAGE;
    BlockSplit(n, p, level);
    DecodeEncode(LeafKind(level), base, LeafFlags, DefaultPat, nxAllowed);
  }

  lemma BlockSplit(n: nat, p: nat, level: nat)
    requires 1 <= level <= 3 && n == p / PAGE
    ensures (n - n % PagesPer(level)) * PAGE % Span(level) == 0
    ensures (n - n % PagesPer(level)) * PAGE + (DMAP_BASE + p) % Span(level) == p
  {
    match level
    case 1 => InBlock(n, p, 0x4_0000, 0x4000_0000, DMAP_BASE / 0x4000_0000);
    case 2 => InBlock(n, p, 0x200, 0x20_0000, DMAP_BASE / 0x20_0000);
    case 3 => InBlock(n, p, 1, PAGE, DMAP_BASE / PAGE);
  }

  lemma InBlock(n: nat, p: nat, pages: nat, span: nat, first: nat)
    requires 0 < pages && span == pages * PAGE && n == p / PAGE
    ensures (n - n % pages) * PAGE % span == 0
    ensures (n - n % pages) * PAGE + (span * first + p) % span == p
  {
    var q, r, s := n / pages, n % pages, p % PAGE;
    assert n - r == pages * q;
    assert (n - r) * PAGE == span * q by { assert pages * q * PAGE == span * q; }
    assert r * PAGE + s < span by { assert (r + 1) * PAGE <= pages * PAGE; }
    assert p == span * q + (r * PAGE + s);
    DivMod(span, q, 0);
    DivMod(span, first + q, r * PAGE + s);
    assert span * first + p == span * (first + q) + (r * PAGE + s);
  }

  // ---- One leaf ----

  /** The slot of an unmapped block is not a table pointer: a table there would be empty. */
  lemma UnmappedSlot(tab: map<Prefix, nat>, mapped: set<nat>, n0: nat, level: nat)
    requires 1 <= level <= 3 && n0 % PagesPer(level) == 0 && n0 + PagesPer(level) <= WINDOW_PAGES
    requires NoEmptyTable(tab, mapped) && Unmapped(mapped, n0, PagesPer(level))
    ensures SlotOf(VirtualOf(n0), level) !in tab
  {
    var va := VirtualOf(n0);
    WindowLinear(n0);
    TopOfSlot(va, level);
    forall n: nat | n in mapped && n < WINDOW_PAGES
      ensures !SlotOf(va, level).Above(SlotOf(VirtualOf(n), 3))
    {
      AboveSlot(va, VirtualOf(n), level);
      SameBlock(n0, n, level);
      AlignedBlock(n0, n, level);
    }
  }

  lemma BlockLeaf(n0: nat, level: nat, nxAllowed: bool)
    requires 1 <= level <= 3 && n0 % PagesPer(level) == 0 && n0 < WINDOW_PAGES
    ensures IsLeaf(level, BlockEntry(level, n0, nxAllowed)) && !IsTable(level, BlockEntry(level, n0, nxAllowed))
    ensures var e := BlockEntry(level, n0, nxAllowed); e.writable && !e.user && e.nx == nxAllowed
    ensures forall m | n0 <= m < n0 + PagesPer(level) ::
      BlockEntry(level, m, nxAllowed) == BlockEntry(level, n0, nxAllowed)
    ensures BlockEntry(level, n0, nxAllowed) ==
      EncodeEntry(LeafKind(level), n0 * PAGE, LeafFlags, DefaultPat, nxAllowed)
  {
    BlockSplit(n0, n0 * PAGE, level);
    DecodeEncode(LeafKind(level), n0 * PAGE, LeafFlags, DefaultPat, nxAllowed);
    forall m | n0 <= m < n0 + PagesPer(level)
      ensures m - m % PagesPer(level) == n0
    {
      BlockBase(n0, m, level);
    }
  }

  /** Writing the leaf of an unmapped block maps exactly that block in addition. */
  lemma LeafWalks(fr: Frames, root: nat, tab: map<Prefix, nat>, n0: nat, level: nat, nxAllowed: bool, va: nat)
    requires Tree(fr, root, tab) && 1 <= level <= 3 && n0 % PagesPer(level) == 0 && n0 < WINDOW_PAGES
    requires TableOf(VirtualOf(n0), level) in tab && SlotOf(VirtualOf(n0), level) !in tab
    ensures var leaf := BlockEntry(level, n0, nxAllowed);
      var now := SetSlot(fr, tab[TableOf(VirtualOf(n0), level)], Index(VirtualOf(n0), level), leaf);
      Lookup(now, root, va) ==
      if SlotOf(VirtualOf(n0), level) == SlotOf(va, level)
      then Leaf(level, leaf, Through(Walk(fr, root, TableOf(VirtualOf(n0), level)).Allowed(), leaf))
      else Lookup(fr, root, va)
  {
    var v0 := VirtualOf(n0);
    var e := BlockEntry(level, n0, nxAllowed);
    SlotLevels(v0);
    BlockLeaf(n0, level, nxAllowed);
    assert At(TableOf(v0, level), Index(v0, level)) == SlotOf(v0, level);
    WriteLeafWalk(fr, root, tab, TableOf(v0, level), Index(v0, level), e, SlotOf(va, 3));
    WalkReachesTable(fr, root, tab, TableOf(v0, level));
    AboveSlot(v0, va, level);
  }

  /** What a leaf allows below a table that lets things through. */
  lemma LeafRights(fr: Frames, root: nat, tab: map<Prefix, nat>, n0: nat, level: nat, nxAllowed: bool)
    requires Tree(fr, root, tab) && 1 <= level <= 3 && n0 % PagesPer(level) == 0 && n0 < WINDOW_PAGES
    requires TableOf(VirtualOf(n0), level) in tab && Passable(fr, root, nxAllowed)
    ensures Through(Walk(fr, root, TableOf(VirtualOf(n0), level)).Allowed(), BlockEntry(level, n0, nxAllowed)) ==
      Rights(true, false, nxAllowed)
  {
    var q := TableOf(VirtualOf(n0), level);
    WindowLinear(n0);
    TopOfSlot(VirtualOf(n0), level - 1);
    WalkReachesTable(fr, root, tab, q);
    BlockLeaf(n0, level, nxAllowed);
    assert Lets(Walk(fr, root, q).rights, nxAllowed);
  }

  lemma LeafExact(fr: Frames, now: Frames, root: nat, tab: map<Prefix, nat>, n0: nat, level: nat, nxAllowed: bool,
        sizes: nat -> nat, mapped: set<nat>, mapped': set<nat>)
    requires Tree(fr, root, tab) && 1 <= level <= 3 && n0 % PagesPer(level) == 0 && n0 + PagesPer(level) <= WINDOW_PAGES
    requires TableOf(VirtualOf(n0), level) in tab && SlotOf(VirtualOf(n0), level) !in tab
    requires Exact(fr, root, mapped, nxAllowed, sizes) && Joined(mapped, mapped', n0, PagesPer(level))
    requires Passable(fr, root, nxAllowed) && forall m | n0 <= m < n0 + PagesPer(level) :: sizes(m) == level
    requires now ==
      SetSlot(fr, tab[TableOf(VirtualOf(n0), level)], Index(VirtualOf(n0), level), BlockEntry(level, n0, nxAllowed))
    ensures Exact(now, root, mapped', nxAllowed, sizes)
    ensures SameOutside(fr, now, root)
  {
    BlockLeaf(n0, level, nxAllowed);
    LeafRights(fr, root, tab, n0, level, nxAllowed);
    forall n: nat | n < WINDOW_PAGES
      ensures Lookup(now, root, VirtualOf(n)) ==
        if n0 <= n < n0 + PagesPer(level)
        then Leaf(level, BlockEntry(level, n, nxAllowed), Rights(true, false, nxAllowed))
        else Lookup(fr, root, VirtualOf(n))
    {
      LeafWalks(fr, root, tab, n0, level, nxAllowed, VirtualOf(n));
      SameBlock(n0, n, level);
      AlignedBlock(n0, n, level);
    }
    LeafOutside(fr, now, root, tab, n0, level, nxAllowed);
  }

  lemma LeafOutside(fr: Frames, now: Frames, root: nat, tab: map<Prefix, nat>, n0: nat, level: nat, nxAllowed: bool)
    requires Tree(fr, root, tab) && 1 <= level <= 3 && n0 % PagesPer(level) == 0 && n0 < WINDOW_PAGES
    requires TableOf(VirtualOf(n0), level) in tab && SlotOf(VirtualOf(n0), level) !in tab
    requires now ==
      SetSlot(fr, tab[TableOf(VirtualOf(n0), level)], Index(VirtualOf(n0), level), BlockEntry(level, n0, nxAllowed))
    ensures SameOutside(fr, now, root)
  {
    forall va: nat | !InWindow(va)
      ensures Lookup(now, root, va) == Lookup(fr, root, va)
    {
      LeafWalks(fr, root, tab, n0, level, nxAllowed, va);
      WindowLinear(n0);
      TopOfSlot(VirtualOf(n0), level);
      TopOfSlot(va, level);
    }
  }

  /** A leaf is no table. */
  lemma LeafPassable(fr: Frames, root: nat, tab: map<Prefix, nat>, r: Prefix, i: nat, e: Entry, nxAllowed: bool)
    requires Tree(fr, root, tab) && r in tab && i < 512 && At(r, i) !in tab && !IsTable(r.Level(), e)
    requires Passable(fr, root, nxAllowed)
    ensures Passable(SetSlot(fr, tab[r], i, e), root, nxAllowed)
  {
    var now := SetSlot(fr, tab[r], i, e);
    forall q: Prefix | q.At? && 256 <= TopIndex(q) <= 510 && Walk(now, root, q).Table?
      ensures Lets(Walk(now, root, q).rights, nxAllowed)
    {
      WriteLeafWalk(fr, root, tab, r, i, e, q);
      WalkReachesTable(fr, root, tab, r);
    }
  }

  /** A table linked by an entry that lets things through does too. */
  lemma LinkPassable(fr: Frames, root: nat, tab: map<Prefix, nat>, r: Prefix, i: nat, e: Entry, nxAllowed: bool)
    requires CanLink(fr, root, tab, r, i, e) && e.writable && (e.nx ==> nxAllowed) && Passable(fr, root, nxAllowed)
    ensures Passable(Link(fr, tab[r], i, e), root, nxAllowed)
  {
    var now := Link(fr, tab[r], i, e);
    forall q: Prefix | q.At? && 256 <= TopIndex(q) <= 510 && Walk(now, root, q).Table?
      ensures Lets(Walk(now, root, q).rights, nxAllowed)
    {
      LinkWalk(fr, root, tab, r, i, e, q);
      WalkReachesTable(fr, root, tab, r);
      if q == At(r, i) && r.At? { assert Lets(Walk(fr, root, r).rights, nxAllowed); }
    }
  }

  /** Walks that stay the same keep the window exact. */
  lemma SameWalksExact(was: Frames, now: Frames, root: nat, mapped: set<nat>, nxAllowed: bool, sizes: nat -> nat)
    requires forall q: Prefix {:trigger Walk(now, root, q)} | q.Level() == 4 :: Walk(now, root, q) == Walk(was, root, q)
    ensures Exact(was, root, mapped, nxAllowed, sizes) ==> Exact(now, root, mapped, nxAllowed, sizes)
    ensures SameOutside(was, now, root)
  {
    forall va: nat
      ensures Lookup(now, root, va) == Lookup(was, root, va)
    {
      SlotLevels(va);
    }
  }

  /** Tables added above a page that is now mapped are not empty. */
  lemma NoEmptyExtends(tab: map<Prefix, nat>, tab': map<Prefix, nat>, mapped: set<nat>, mapped': set<nat>, n0: nat,
        count: nat)
    requires NoEmptyTable(tab, mapped) && 0 < count && n0 < WINDOW_PAGES && Joined(mapped, mapped', n0, count)
    requires forall q {:trigger q in tab'} | q in tab' :: q in tab || q.Above(SlotOf(VirtualOf(n0), 3))
    ensures NoEmptyTable(tab', mapped')
  {
    assert n0 in mapped';
  }
}
