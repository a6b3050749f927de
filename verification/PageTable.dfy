/** The 4-level page table as the processor reads it (Intel SDM Volume 3A, section 4.5) and the
    invariant that the kernel's tables form a tree. */
module PageTable {
  import opened Machine
  import opened Pte

  /** Physical memory that holds tables: a 4 KiB frame is 512 entries, keyed by its address. */
  type Frames = map<nat, seq<Entry>>

  function ZeroFrame(): (s: seq<Entry>)
    ensures |s| == 512 && forall i | 0 <= i < 512 :: s[i] == NotPresent
  {
    seq(512, _ => NotPresent)
  }

  /** The indices taken on the way down from the root. Four of them name a page. */
  datatype Prefix = Root | At(up: Prefix, index: nat)
  {
    function Level(): nat {
      if Root? then 0 else up.Level() + 1
    }

    /** `q` is this prefix or lies below it. */
    predicate Above(q: Prefix) {
      q == this || (q.At? && Above(q.up))
    }
  }

  /** Where the walk along a prefix has arrived, and what the entries read on the way allow. */
  datatype Arrival = Table(frame: nat, rights: Rights) | Leaf(level: nat, entry: Entry, rights: Rights) | Fault
  {
    /** What they allow; a walk that found nothing allows nothing. */
    function Allowed(): Rights {
      if Fault? then Rights(false, false, true) else rights
    }
  }

  /** One step of the hardware walk: read entry `index` of the table arrived at. */
  function Step(fr: Frames, at: Arrival, level: nat, index: nat): Arrival {
    if !at.Table? then at
    else if at.frame !in fr || index >= |fr[at.frame]| then Fault
    else
      var e := fr[at.frame][index];
      if IsLeaf(level, e) then Leaf(level, e, Through(at.rights, e))
      else if IsTable(level, e) then Table(e.address, Through(at.rights, e))
      else Fault
  }

  function Walk(fr: Frames, root: nat, q: Prefix): Arrival {
    if q.Root? then Table(root, AllRights) else Step(fr, Walk(fr, root, q.up), q.up.Level(), q.index)
  }

  // ---- The tree invariant ----

  /** Every table is a whole frame above the page level. */
  ghost predicate Framed(fr: Frames, tab: map<Prefix, nat>) {
    forall q {:trigger q in tab} | q in tab :: q.Level() < 4 && tab[q] in fr && |fr[tab[q]]| == 512
  }

  /** A table is linked from the slot its prefix says. */
  ghost predicate Linked(fr: Frames, tab: map<Prefix, nat>)
    requires Framed(fr, tab)
  {
    forall q {:trigger q in tab} | q in tab && q.At? ::
      && q.index < 512 && q.up in tab
      && IsTable(q.up.Level(), fr[tab[q.up]][q.index]) && fr[tab[q.up]][q.index].address == tab[q]
  }

  /** A table entry leads to a known table. */
  ghost predicate Closed(fr: Frames, tab: map<Prefix, nat>)
    requires Framed(fr, tab)
  {
    forall q, i: nat {:trigger At(q, i) in tab} {:trigger fr[tab[q]][i]} |
      q in tab && i < 512 && IsTable(q.Level(), fr[tab[q]][i]) :: At(q, i) in tab
  }

  /** No frame serves two prefixes. */
  ghost predicate Unshared(tab: map<Prefix, nat>) {
    forall q, r {:trigger tab[q], tab[r]} | q in tab && r in tab && tab[q] == tab[r] :: q == r
  }

  /** Bit 7 is reserved in the entries of the root. */
  ghost predicate Plain(fr: Frames, root: nat)
    requires root in fr && |fr[root]| == 512
  {
    forall i | 0 <= i < 512 :: fr[root][i].present ==> !fr[root][i].bit7
  }

  /** `tab` names the frame of every table of a tree rooted at `root`. */
  ghost predicate Tree(fr: Frames, root: nat, tab: map<Prefix, nat>) {
    && Root in tab && tab[Root] == root
    && Framed(fr, tab) && Linked(fr, tab) && Closed(fr, tab) && Unshared(tab) && Plain(fr, root)
  }

  /** A walk arrives at a table exactly along the prefixes of `tab`. */
  lemma {:induction false} WalkReachesTable(fr: Frames, root: nat, tab: map<Prefix, nat>, q: Prefix)
    requires Tree(fr, root, tab)
    ensures q in tab ==> Walk(fr, root, q).Table? && Walk(fr, root, q).frame == tab[q]
    ensures q !in tab ==> !Walk(fr, root, q).Table?
  {
    if q.At? {
      WalkReachesTable(fr, root, tab, q.up);
    }
  }

  function SetSlot(fr: Frames, frame: nat, i: nat, e: Entry): Frames
    requires frame in fr && i < |fr[frame]|
  {
    fr[frame := fr[frame][i := e]]
  }

  /** Writing one slot that is not a table pointer changes the walks through it and no other. */
  lemma {:induction false} WriteLeafWalk(fr: Frames, root: nat, tab: map<Prefix, nat>, r: Prefix, i: nat, e: Entry,
        q: Prefix)
    requires Tree(fr, root, tab) && r in tab && i < 512 && At(r, i) !in tab && !IsTable(r.Level(), e)
    ensures Walk(SetSlot(fr, tab[r], i, e), root, q) ==
      if At(r, i).Above(q) then Step(SetSlot(fr, tab[r], i, e), Walk(fr, root, r), r.Level(), i) else Walk(fr, root, q)
  {
    if q.At? {
      WriteLeafWalk(fr, root, tab, r, i, e, q.up);
      WalkReachesTable(fr, root, tab, q.up);
      WalkReachesTable(fr, root, tab, r);
      AboveLevel(At(r, i), r);
    }
  }

  lemma WriteLeafTree(fr: Frames, root: nat, tab: map<Prefix, nat>, r: Prefix, i: nat, e: Entry)
    requires Tree(fr, root, tab) && r in tab && 0 < r.Level() && i < 512 && At(r, i) !in tab && !IsTable(r.Level(), e)
    ensures Tree(SetSlot(fr, tab[r], i, e), root, tab)
  {
    var fr' := SetSlot(fr, tab[r], i, e);
    assert tab[r] != root && fr'[root] == fr[root];
    WriteLeafLinked(fr, tab, r, i, e);
    WriteLeafClosed(fr, tab, r, i, e);
  }

  lemma WriteLeafClosed(fr: Frames, tab: map<Prefix, nat>, r: Prefix, i: nat, e: Entry)
    requires Framed(fr, tab) && Closed(fr, tab) && Unshared(tab) && r in tab && i < 512 && !IsTable(r.Level(), e)
    requires Framed(SetSlot(fr, tab[r], i, e), tab)
    ensures Closed(SetSlot(fr, tab[r], i, e), tab)
  {
    var fr' := SetSlot(fr, tab[r], i, e);
    forall q, k: nat | q in tab && k < 512 && IsTable(q.Level(), fr'[tab[q]][k]) ensures At(q, k) in tab {
      assert fr'[tab[q]][k] == fr[tab[q]][k];
    }
  }

  lemma WriteLeafLinked(fr: Frames, tab: map<Prefix, nat>, r: Prefix, i: nat, e: Entry)
    requires Framed(fr, tab) && Linked(fr, tab) && Unshared(tab) && r in tab && i < 512 && At(r, i) !in tab
    ensures Framed(SetSlot(fr, tab[r], i, e), tab) && Linked(SetSlot(fr, tab[r], i, e), tab)
  {
    var fr' := SetSlot(fr, tab[r], i, e);
    forall q | q in tab && q.At?
      ensures q.up in tab && q.index < 512 && fr'[tab[q.up]][q.index] == fr[tab[q.up]][q.index]
    {
      assert q != At(r, i);
    }
  }

  /** Linking a zeroed frame into an empty slot: the entry is written first, the frame cleared
      after, as PteGetOrAcquirePageStruct does. */
  function Link(fr: Frames, frame: nat, i: nat, e: Entry): Frames
    requires frame in fr && i < |fr[frame]|
  {
    SetSlot(fr, frame, i, e)[e.address := ZeroFrame()]
  }

  /** The premises of linking a table whose pointer entry is `e` into slot `i` of the table `r`. */
  ghost predicate CanLink(fr: Frames, root: nat, tab: map<Prefix, nat>, r: Prefix, i: nat, e: Entry) {
    && Tree(fr, root, tab) && r in tab && i < 512 && r.Level() < 3
    && !fr[tab[r]][i].present && IsTable(r.Level(), e) && e.address !in tab.Values
  }

  lemma LinkFresh(fr: Frames, root: nat, tab: map<Prefix, nat>, r: Prefix, i: nat, e: Entry)
    requires CanLink(fr, root, tab, r, i, e)
    ensures At(r, i) !in tab && forall q | q in tab :: tab[q] != e.address
  {
    assert forall q | q in tab :: tab[q] in tab.Values;
  }

  lemma LinkTree(fr: Frames, root: nat, tab: map<Prefix, nat>, r: Prefix, i: nat, e: Entry)
    requires CanLink(fr, root, tab, r, i, e)
    ensures Tree(Link(fr, tab[r], i, e), root, tab[At(r, i) := e.address])
  {
    LinkFresh(fr, root, tab, r, i, e);
    var fr', tab' := Link(fr, tab[r], i, e), tab[At(r, i) := e.address];
    assert Framed(fr', tab');
    assert Linked(fr', tab') by {
      forall q | q in tab' && q.At?
        ensures q.index < 512 && q.up in tab' && IsTable(q.up.Level(), fr'[tab'[q.up]][q.index])
        ensures fr'[tab'[q.up]][q.index].address == tab'[q]
      {
        assert q.up in tab && q.up != At(r, i);
      }
    }
    assert Closed(fr', tab') by {
      forall q, k: nat | q in tab' && k < 512 && IsTable(q.Level(), fr'[tab'[q]][k])
        ensures At(q, k) in tab'
      {
        assert q in tab;
        assert At(q, k) == At(r, i) || fr[tab[q]][k] == fr'[tab[q]][k];
      }
    }
  }

  /** It adds one table and leaves every other walk as it was. */
  lemma {:induction false} LinkWalk(fr: Frames, root: nat, tab: map<Prefix, nat>, r: Prefix, i: nat, e: Entry,
        q: Prefix)
    requires CanLink(fr, root, tab, r, i, e)
    ensures Walk(Link(fr, tab[r], i, e), root, q) ==
      if q == At(r, i) then Table(e.address, Through(Walk(fr, root, r).Allowed(), e)) else Walk(fr, root, q)
  {
    LinkFresh(fr, root, tab, r, i, e);
    WalkReachesTable(fr, root, tab, r);
    if q.At? {
      LinkWalk(fr, root, tab, r, i, e, q.up);
      WalkReachesTable(fr, root, tab, q.up);
      WalkReachesTable(fr, root, tab, q);
    }
  }

  /** Clearing a frame that is no table (a data page) changes no walk. */
  lemma {:induction false} ClearDataFrame(fr: Frames, root: nat, tab: map<Prefix, nat>, frame: nat, q: Prefix)
    requires Tree(fr, root, tab) && frame !in tab.Values
    ensures Walk(fr[frame := ZeroFrame()], root, q) == Walk(fr, root, q)
    ensures Tree(fr[frame := ZeroFrame()], root, tab)
  {
    assert forall q | q in tab :: tab[q] in tab.Values;
    if q.At? {
      ClearDataFrame(fr, root, tab, frame, q.up);
      WalkReachesTable(fr, root, tab, q.up);
    }
  }

  // ---- Linear addresses ----

  const LINEAR := 0x1_0000_0000_0000   // 2^48: 4-level paging translates bits 47:0

  datatype AddressMode = Small | Large | Huge

  datatype VirtualIndex = VirtualIndex(pml4: nat, pdpt: nat, pd: nat, pt: nat)

  /** KrUnmakeVirtual without its Offset field. */
  function Unmake(mode: AddressMode, va: nat): VirtualIndex {
    VirtualIndex(va / 0x80_0000_0000 % 512, va / 0x4000_0000 % 512,
                 if mode == Huge then 0 else va / 0x20_0000 % 512,
                 if mode == Small then va / 0x1000 % 512 else 0)
  }

  function Index(va: nat, level: nat): nat
    requires level <= 3
  {
    va / Span(level) % 512
  }

  /** The slot the walk for `va` reads at `level`. */
  function SlotOf(va: nat, level: nat): Prefix
    requires level <= 3
  {
    At(if level == 0 then Root else SlotOf(va, level - 1), Index(va, level))
  }

  /** The table the walk for `va` is in when it reads at `level`. */
  function TableOf(va: nat, level: nat): Prefix
    requires level <= 3
  {
    if level == 0 then Root else SlotOf(va, level - 1)
  }

  lemma SlotLevels(va: nat)
    ensures forall k | 0 <= k <= 3 :: SlotOf(va, k).Level() == k + 1 && TableOf(va, k).Level() == k
  {
    assert SlotOf(va, 0).Level() == 1;
    assert SlotOf(va, 1).Level() == 2;
    assert SlotOf(va, 2).Level() == 3;
    assert SlotOf(va, 3).Level() == 4;
  }

  function Lookup(fr: Frames, root: nat, va: nat): Arrival {
    Walk(fr, root, SlotOf(va, 3))
  }

  datatype Option<T> = None | Some(value: T)

  /** The physical address `va` translates to. */
  function Translate(fr: Frames, root: nat, va: nat): Option<nat> {
    Target(Lookup(fr, root, va), va)
  }

  /** The byte of a page, given the leaf that maps it. */
  function Target(at: Arrival, va: nat): Option<nat> {
    match at
    case Leaf(level, e, _) => if 1 <= level <= 3 then Some(LeafBase(level, e) + va % Span(level)) else None
    case _ => None
  }

  /** Two addresses pass through the same slot at a level exactly when they lie in the same
      aligned block of that level's span. */
  lemma {:induction false} SameSlot(va: nat, vb: nat, level: nat)
    requires level <= 3
    ensures SlotOf(va, level) == SlotOf(vb, level) <==> va % LINEAR / Span(level) == vb % LINEAR / Span(level)
  {
    IndexSplit(va, level);
    IndexSplit(vb, level);
    if level > 0 {
      SameSlot(va, vb, level - 1);
    }
  }

  lemma IndexSplit(va: nat, level: nat)
    requires level <= 3
    ensures Index(va, level) == va % LINEAR / Span(level) % 512
    ensures if level == 0 then Index(va, 0) == va % LINEAR / Span(0)
      else va % LINEAR / Span(level) == va % LINEAR / Span(level - 1) * 512 + Index(va, level)
  {
    var low := va % LINEAR;
    match level
    case 0 => LowBits(va, 0x80_0000_0000, 0x200);
    case 1 => LowBits(va, 0x4000_0000, 0x4_0000); assert low / 0x4000_0000 / 512 == low / 0x80_0000_0000;
    case 2 => LowBits(va, 0x20_0000, 0x800_0000); assert low / 0x20_0000 / 512 == low / 0x4000_0000;
    case 3 => LowBits(va, 0x1000, 0x10_0000_0000); assert low / 0x1000 / 512 == low / 0x20_0000;
  }

  lemma LowBits(va: nat, span: nat, count: nat)
    requires 0 < span && span * count == LINEAR && count % 512 == 0
    ensures va / span % 512 == va % LINEAR / span % 512
  {
    var high, low := va / LINEAR, va % LINEAR;
    var blocks := high * (count / 512);
    assert va == span * (blocks * 512) + low by {
      assert blocks * 512 == high * count;
      assert span * (high * count) == high * LINEAR;
    }
    DivSum(span, blocks * 512, low);
    ModSum(blocks, low / span);
  }

  lemma DivSum(span: nat, k: nat, low: nat)
    requires 0 < span
    ensures (span * k + low) / span == k + low / span
  {
    var q, r := low / span, low % span;
    assert span * k + low == span * (k + q) + r;
    DivMod(span, k + q, r);
  }

  lemma ModSum(k: nat, x: nat)
    ensures (k * 512 + x) % 512 == x % 512
  {
  }

  /** A slot at `level` is above the page of `vb` exactly when it is the slot `vb` reads there. */
  lemma AboveSlot(va: nat, vb: nat, level: nat)
    requires level <= 3
    ensures SlotOf(va, level).Above(SlotOf(vb, 3)) <==> SlotOf(va, level) == SlotOf(vb, level)
  {
    AboveSlotAt(va, vb, level, 3);
  }

  lemma {:induction false} AboveSlotAt(va: nat, vb: nat, level: nat, n: nat)
    requires level <= n <= 3
    ensures SlotOf(va, level).Above(SlotOf(vb, n)) <==> SlotOf(va, level) == SlotOf(vb, level)
    decreases n
  {
    SlotLevels(va);
    SlotLevels(vb);
    if n == level {
      AboveLevel(SlotOf(va, level), SlotOf(vb, n));
    } else {
      AboveSlotAt(va, vb, level, n - 1);
      assert SlotOf(vb, n).up == SlotOf(vb, n - 1);
      assert SlotOf(va, level).Level() != SlotOf(vb, n).Level();
    }
  }

  lemma {:induction false} AboveLevel(p: Prefix, q: Prefix)
    ensures p.Above(q) ==> p.Level() <= q.Level()
    ensures p.Above(q) && p.Level() == q.Level() ==> p == q
  {
    if q.At? {
      AboveLevel(p, q.up);
    }
  }

  // ---- What the tables on a path allow ----

  /** What the tables above the slot of `va` at `level` allow, those still missing taken as the kernel
      links them: they forbid user mode and nothing else. */
  function PathRights(fr: Frames, root: nat, va: nat, level: nat): Rights
    requires level <= 3
  {
    if level == 0 then AllRights
    else
      var at, above := Walk(fr, root, SlotOf(va, level - 1)), PathRights(fr, root, va, level - 1);
      if at.Table? then at.rights else Rights(above.writable, false, above.noExecute)
  }

  ghost predicate SamePaths(was: Frames, now: Frames, root: nat) {
    forall va: nat {:trigger PathRights(now, root, va, 3)} ::
      PathRights(now, root, va, 3) == PathRights(was, root, va, 3)
  }

  /** No table on the path of `va` forbids writing or fetching. */
  ghost predicate Unrestricted(fr: Frames, root: nat, va: nat) {
    forall k | 0 <= k <= 2 ::
      var at := Walk(fr, root, SlotOf(va, k)); at.Table? ==> at.rights.writable && !at.rights.noExecute
  }

  lemma UnrestrictedPath(fr: Frames, root: nat, va: nat)
    requires Unrestricted(fr, root, va)
    ensures PathRights(fr, root, va, 3).writable && !PathRights(fr, root, va, 3).noExecute
  {
    assert PathRights(fr, root, va, 1).writable && !PathRights(fr, root, va, 1).noExecute;
    assert PathRights(fr, root, va, 2).writable && !PathRights(fr, root, va, 2).noExecute;
  }

  /** Addresses of one page have one path. */
  lemma SamePagePath(fr: Frames, root: nat, va: nat, vb: nat)
    requires va % LINEAR / PAGE == vb % LINEAR / PAGE
    ensures PathRights(fr, root, va, 3) == PathRights(fr, root, vb, 3)
  {
    SameSlot(va, vb, 3);
    assert SlotOf(va, 2) == SlotOf(vb, 2) && SlotOf(va, 1) == SlotOf(vb, 1) && SlotOf(va, 0) == SlotOf(vb, 0);
    assert PathRights(fr, root, va, 1) == PathRights(fr, root, vb, 1);
    assert PathRights(fr, root, va, 2) == PathRights(fr, root, vb, 2);
  }

  lemma PathOfTable(fr: Frames, root: nat, tab: map<Prefix, nat>, va: nat, level: nat)
    requires Tree(fr, root, tab) && level <= 3 && TableOf(va, level) in tab
    ensures PathRights(fr, root, va, level) == Walk(fr, root, TableOf(va, level)).Allowed()
  {
    WalkReachesTable(fr, root, tab, TableOf(va, level));
  }

  /** Linking a table that forbids no more than that leaves every path as it is. */
  lemma {:induction false} LinkPath(fr: Frames, root: nat, tab: map<Prefix, nat>, r: Prefix, i: nat, e: Entry, va: nat,
        level: nat)
    requires CanLink(fr, root, tab, r, i, e) && e.writable && !e.user && !e.nx && level <= 3
    ensures PathRights(Link(fr, tab[r], i, e), root, va, level) == PathRights(fr, root, va, level)
    decreases level
  {
    if level > 0 {
      var q := SlotOf(va, level - 1);
      LinkPath(fr, root, tab, r, i, e, va, level - 1);
      LinkWalk(fr, root, tab, r, i, e, q);
      if q == At(r, i) {
        LinkFresh(fr, root, tab, r, i, e);
        WalkReachesTable(fr, root, tab, q);
        PathOfTable(fr, root, tab, va, level - 1);
      }
    }
  }

  lemma LinkSamePaths(fr: Frames, root: nat, tab: map<Prefix, nat>, r: Prefix, i: nat, e: Entry)
    requires CanLink(fr, root, tab, r, i, e) && e.writable && !e.user && !e.nx
    ensures SamePaths(fr, Link(fr, tab[r], i, e), root)
  {
    forall va: nat ensures PathRights(Link(fr, tab[r], i, e), root, va, 3) == PathRights(fr, root, va, 3) {
      LinkPath(fr, root, tab, r, i, e, va, 3);
    }
  }

  /** Writing the entry of a page leaves every path as it is ... */
  lemma {:induction false} LeafPath(fr: Frames, root: nat, tab: map<Prefix, nat>, r: Prefix, i: nat, e: Entry, va: nat,
        level: nat)
    requires Tree(fr, root, tab) && r in tab && r.Level() == 3 && i < 512 && At(r, i) !in tab && level <= 3
    ensures PathRights(SetSlot(fr, tab[r], i, e), root, va, level) == PathRights(fr, root, va, level)
    decreases level
  {
    if level > 0 {
      LeafPath(fr, root, tab, r, i, e, va, level - 1);
      WriteLeafWalk(fr, root, tab, r, i, e, SlotOf(va, level - 1));
      AboveLevel(At(r, i), SlotOf(va, level - 1));
      SlotLevels(va);
    }
  }

  /** ... and so does clearing a frame that is no table. */
  lemma {:induction false} ClearPath(fr: Frames, root: nat, tab: map<Prefix, nat>, frame: nat, va: nat, level: nat)
    requires Tree(fr, root, tab) && frame !in tab.Values && level <= 3
    ensures PathRights(fr[frame := ZeroFrame()], root, va, level) == PathRights(fr, root, va, level)
    decreases level
  {
    if level > 0 {
      ClearPath(fr, root, tab, frame, va, level - 1);
      ClearDataFrame(fr, root, tab, frame, SlotOf(va, level - 1));
    }
  }
}
