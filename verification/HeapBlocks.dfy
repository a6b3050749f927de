/** The header list of the kernel heap as a value, and what splitting and merging do to it
    (Kernel/Source/Memory/Krnlheap.c). */
module HeapBlocks {
  const KERNEL_BASE: nat := 0xFFFF_FF80_0000_0000
  const HEAP_START: nat := KERNEL_BASE
  const HEAP_END: nat := KERNEL_BASE + 256 * 0x4000_0000

  const HEADER_SIZE: nat := 25
  const MIN_PAYLOAD: nat := 32
  const BACK_SIZE: nat := 2
  const MAX_BACK: nat := 0xFFFF

  /** HeapHeader; the address 0 is the null pointer. */
  datatype Header = Header(prev: nat, next: nat, size: nat, free: bool)

  /** The headers in the list, by address. */
  type Blocks = map<nat, Header>

  function EndOf(v: Blocks, h: nat): nat
    requires h in v
  {
    h + HEADER_SIZE + v[h].size
  }

  /** Header `h` agrees with its neighbours: its block ends where the next one begins, or at the
      heap's end, and the neighbours point back. */
  ghost predicate LinkedAt(v: Blocks, h: nat)
    requires h in v
  {
    && HEAP_START <= h && EndOf(v, h) <= HEAP_END && v[h].size >= MIN_PAYLOAD
    && (h == HEAP_START <==> v[h].prev == 0)
    && (h != HEAP_START ==> v[h].prev in v && v[h].prev < h && v[v[h].prev].next == h)
    && (if v[h].next == 0 then EndOf(v, h) == HEAP_END
        else v[h].next in v && v[h].next == EndOf(v, h) && v[v[h].next].prev == h)
  }

  /** A doubly linked chain that tiles the heap. */
  ghost predicate Linked(v: Blocks) {
    HEAP_START in v && forall h {:trigger LinkedAt(v, h)} | h in v :: LinkedAt(v, h)
  }

  /** No two neighbouring free blocks. */
  ghost predicate Coalesced(v: Blocks) {
    forall h {:trigger v[h]} | h in v && v[h].free && v[h].next != 0 && v[h].next in v :: !v[v[h].next].free
  }

  /** Different blocks do not overlap. */
  lemma {:induction false} Apart(v: Blocks, h1: nat, h2: nat)
    requires Linked(v) && h1 in v && h2 in v && h1 < h2
    ensures EndOf(v, h1) <= h2
    decreases h1 + h2
  {
    assert LinkedAt(v, h2) && LinkedAt(v, h1);
    var p := v[h2].prev;
    assert LinkedAt(v, p);
    if p > h1 { Apart(v, h1, p); } else if p < h1 { Apart(v, p, h1); }
  }

  /** HeapTrySplitAt: cuts the block at `off` bytes from its header when the rest can stand alone. */
  function Split(v: Blocks, h: nat, off: nat): Blocks
    requires h in v && (v[h].next != 0 ==> v[h].next in v)
    requires HEADER_SIZE <= off <= HEADER_SIZE + v[h].size
  {
    var rest := HEADER_SIZE + v[h].size - off;
    if rest < MIN_PAYLOAD + HEADER_SIZE then v
    else
      var u := v[h + off := Header(h, v[h].next, rest - HEADER_SIZE, true)];
      var w := if v[h].next == 0 then u else u[v[h].next := u[v[h].next].(prev := h + off)];
      w[h := v[h].(next := h + off, size := v[h].size - rest)]
  }

  /** A block swallows the one after it. */
  function MergeNext(v: Blocks, h: nat): Blocks
    requires h in v && v[h].next in v && v[h].next != h
    requires v[v[h].next].next != 0 ==> v[v[h].next].next in v
  {
    var n := v[h].next;
    var nn := v[n].next;
    var u := (v - {n})[h := v[h].(next := nn, size := v[h].size + v[n].size + HEADER_SIZE)];
    if nn == 0 || nn !in u then u else u[nn := u[nn].(prev := h)]
  }

  function Flagged(v: Blocks, h: nat, free: bool): Blocks
    requires h in v
  {
    v[h := v[h].(free := free)]
  }

  lemma FlaggedLinked(v: Blocks, h: nat, free: bool)
    requires Linked(v) && h in v
    ensures Linked(Flagged(v, h, free))
  {
    var w := Flagged(v, h, free);
    forall k | k in w ensures LinkedAt(w, k) { assert LinkedAt(v, k); }
  }

  lemma SplitLinked(v: Blocks, h: nat, off: nat)
    requires Linked(v) && h in v && HEADER_SIZE + MIN_PAYLOAD <= off <= HEADER_SIZE + v[h].size
    ensures v[h].next != 0 ==> v[h].next in v
    ensures Linked(Split(v, h, off))
  {
    assert LinkedAt(v, h);
    if v[h].next != 0 { assert LinkedAt(v, v[h].next); }
    NoHeaderInside(v, h, h + off);
    var w := Split(v, h, off);
    if w != v {
      assert LinkedAt(w, h);
      assert LinkedAt(w, h + off);
      assert v[h].next != 0 ==> LinkedAt(w, v[h].next);
      forall k | k in w ensures LinkedAt(w, k) {
        if k in v && k != h && (k != v[h].next || k == 0) { assert LinkedAt(v, k); SplitElsewhere(v, h, off, k); }
      }
    }
  }

  lemma SplitElsewhere(v: Blocks, h: nat, off: nat, k: nat)
    requires Linked(v) && h in v && HEADER_SIZE + MIN_PAYLOAD <= off <= HEADER_SIZE + v[h].size
    requires h + off !in v && (v[h].next != 0 ==> v[h].next in v) && k in v && k != h && k != v[h].next
    ensures k in Split(v, h, off) && LinkedAt(Split(v, h, off), k)
  {
    assert LinkedAt(v, h) && LinkedAt(v, k);
    NeighboursOf(v, h, k);
    if v[h].next != 0 { NeighboursOf(v, v[h].next, k); }
  }

  lemma NoHeaderInside(v: Blocks, h: nat, x: nat)
    requires Linked(v) && h in v && h < x
    ensures x < EndOf(v, h) ==> x !in v
  {
    if x in v { Apart(v, h, x); }
  }

  /** Only its neighbours point to a block. */
  lemma NeighboursOf(v: Blocks, h: nat, k: nat)
    requires Linked(v) && h in v && k in v
    ensures v[k].next == h ==> v[h].prev == k
    ensures v[k].prev == h ==> v[h].next == k
  {
    assert LinkedAt(v, h) && LinkedAt(v, k);
  }

  lemma MergeLinked(v: Blocks, h: nat)
    requires Linked(v) && h in v && v[h].next != 0
    ensures v[h].next in v && v[h].next != h && (v[v[h].next].next != 0 ==> v[v[h].next].next in v)
    ensures Linked(MergeNext(v, h))
  {
    assert LinkedAt(v, h);
    var n := v[h].next;
    assert LinkedAt(v, n);
    if v[n].next != 0 { assert LinkedAt(v, v[n].next); }
    var w := MergeNext(v, h);
    assert LinkedAt(w, h);
    assert v[n].next != 0 ==> LinkedAt(w, v[n].next);
    forall k | k in w ensures LinkedAt(w, k) {
      if k != h && (k != v[n].next || k == 0) { assert LinkedAt(v, k); MergeElsewhere(v, h, k); }
    }
  }

  lemma MergeElsewhere(v: Blocks, h: nat, k: nat)
    requires Linked(v) && h in v && v[h].next in v && v[h].next != h
    requires (v[v[h].next].next != 0 ==> v[v[h].next].next in v)
    requires k in v && k != h && k != v[h].next && k != v[v[h].next].next
    ensures LinkedAt(MergeNext(v, h), k)
  {
    assert LinkedAt(v, k);
    NeighboursOf(v, v[h].next, k);
    NeighboursOf(v, h, k);
    assert LinkedAt(v, h) && LinkedAt(v, v[h].next);
    if v[v[h].next].next != 0 { NeighboursOf(v, v[v[h].next].next, k); }
  }

  /** Merging undoes splitting. */
  lemma MergeUndoesSplit(v: Blocks, h: nat, off: nat)
    requires Linked(v) && h in v && HEADER_SIZE + MIN_PAYLOAD <= off <= HEADER_SIZE + v[h].size
    requires HEADER_SIZE + v[h].size - off >= MIN_PAYLOAD + HEADER_SIZE
    ensures v[h].next != 0 ==> v[h].next in v
    ensures Linked(Split(v, h, off)) && Split(v, h, off)[h].next == h + off && MergeNext(Split(v, h, off), h) == v
  {
    assert LinkedAt(v, h);
    if v[h].next != 0 { assert LinkedAt(v, v[h].next); }
    SplitLinked(v, h, off);
    NoHeaderInside(v, h, h + off);
    var w := MergeNext(Split(v, h, off), h);
    assert w.Keys == v.Keys;
    assert w[h] == v[h];
  }

  // ---- What acquiring and relinquishing do to the list ----

  /** The block at `h` is cut at `off` and taken. */
  function Granted(v: Blocks, h: nat, off: nat): Blocks
    requires Linked(v) && h in v && HEADER_SIZE + MIN_PAYLOAD <= off <= HEADER_SIZE + v[h].size
  {
    SplitLinked(v, h, off);
    Flagged(Split(v, h, off), h, false)
  }

  function AbsorbNext(v: Blocks, h: nat): Blocks
    requires Linked(v) && h in v
  {
    assert LinkedAt(v, h);
    if v[h].next != 0 && v[v[h].next].free then (MergeLinked(v, h); MergeNext(v, h)) else v
  }

  /** The block at `h` is marked free and merged with free neighbours on both sides. */
  function Freed(v: Blocks, h: nat): Blocks
    requires Linked(v) && h in v
  {
    FlaggedLinked(v, h, true);
    var u := Flagged(v, h, true);
    assert LinkedAt(u, h);
    var p := u[h].prev;
    if p != 0 && u[p].free then (MergeLinked(u, p); AbsorbNext(MergeNext(u, p), p)) else AbsorbNext(u, h)
  }

  /** The taken blocks of `w` are those of `v` and, besides, exactly those in `extra`; they have
      kept their sizes. */
  ghost predicate SameTaken(v: Blocks, w: Blocks, except: nat) {
    forall k {:trigger k in v} {:trigger k in w} | k != except ::
      && (k in v && !v[k].free <==> k in w && !w[k].free)
      && (k in v && !v[k].free ==> w[k].size == v[k].size)
  }

  lemma GrantedKeeps(v: Blocks, h: nat, off: nat)
    requires Linked(v) && Coalesced(v) && h in v && v[h].free
    requires HEADER_SIZE + MIN_PAYLOAD <= off <= HEADER_SIZE + v[h].size
    ensures Linked(Granted(v, h, off)) && Coalesced(Granted(v, h, off)) && SameTaken(v, Granted(v, h, off), h)
    ensures !Granted(v, h, off)[h].free && off - HEADER_SIZE <= Granted(v, h, off)[h].size
  {
    assert LinkedAt(v, h);
    SplitLinked(v, h, off);
    NoHeaderInside(v, h, h + off);
    if v[h].next != 0 { assert LinkedAt(v, v[h].next); }
    FlaggedLinked(Split(v, h, off), h, false);
    GrantedCoalesced(v, h, off);
  }

  lemma GrantedCoalesced(v: Blocks, h: nat, off: nat)
    requires Linked(v) && Coalesced(v) && h in v && v[h].free
    requires HEADER_SIZE + MIN_PAYLOAD <= off <= HEADER_SIZE + v[h].size
    ensures Coalesced(Granted(v, h, off))
  {
    assert LinkedAt(v, h);
    SplitLinked(v, h, off);
    NoHeaderInside(v, h, h + off);
    if v[h].next != 0 { assert LinkedAt(v, v[h].next); }
    var w := Granted(v, h, off);
    forall k | k in w && w[k].free && w[k].next != 0 && w[k].next in w ensures !w[w[k].next].free {
      if k in v { assert LinkedAt(v, k); NeighboursOf(v, h, k); }
    }
  }

  lemma MergeTaken(v: Blocks, h: nat)
    requires Linked(v) && h in v && v[h].next != 0 && v[h].next in v && v[h].free && v[v[h].next].free
    requires v[h].next != h && (v[v[h].next].next != 0 ==> v[v[h].next].next in v)
    ensures SameTaken(v, MergeNext(v, h), 0)
  {
    assert LinkedAt(v, h) && LinkedAt(v, v[h].next);
    if v[v[h].next].next != 0 { assert LinkedAt(v, v[v[h].next].next); }
  }

  /** Two free neighbours, and nowhere else. */
  ghost predicate CoalescedBut(v: Blocks, h: nat) {
    forall k {:trigger v[k]} | k in v && k != h && v[k].free && v[k].next != 0 && v[k].next in v && v[k].next != h ::
      !v[v[k].next].free
  }

  /** The two blocks after `h` are free. */
  ghost predicate NextTwoFree(v: Blocks, h: nat)
    requires h in v
  {
    && v[h].next != 0 && v[h].next in v && v[v[h].next].free
    && v[v[h].next].next != 0 && v[v[h].next].next in v && v[v[v[h].next].next].free
  }

  lemma AbsorbKeeps(v: Blocks, h: nat)
    requires Linked(v) && h in v && v[h].free && CoalescedBut(v, h)
    requires v[h].prev != 0 && v[h].prev in v ==> !v[v[h].prev].free
    requires !NextTwoFree(v, h)
    ensures Linked(AbsorbNext(v, h)) && Coalesced(AbsorbNext(v, h)) && SameTaken(v, AbsorbNext(v, h), 0)
    ensures h in AbsorbNext(v, h) && AbsorbNext(v, h)[h].free
  {
    assert LinkedAt(v, h);
    if v[h].next != 0 && v[v[h].next].free {
      MergeLinked(v, h);
      MergeTaken(v, h);
      AbsorbCoalesced(v, h);
    } else {
      forall k | k in v && v[k].free && v[k].next != 0 && v[k].next in v ensures !v[v[k].next].free {
        assert LinkedAt(v, k);
        NeighboursOf(v, h, k);
      }
    }
  }

  lemma AbsorbCoalesced(v: Blocks, h: nat)
    requires Linked(v) && h in v && v[h].free && CoalescedBut(v, h)
    requires v[h].prev != 0 && v[h].prev in v ==> !v[v[h].prev].free
    requires v[h].next != 0 && v[h].next in v && v[v[h].next].free && v[h].next != h
    requires v[v[h].next].next != 0 ==> v[v[h].next].next in v && !v[v[v[h].next].next].free
    ensures Coalesced(MergeNext(v, h))
  {
    var w := MergeNext(v, h);
    forall k | k in w && w[k].free && w[k].next != 0 && w[k].next in w ensures !w[w[k].next].free {
      assert LinkedAt(v, k) && LinkedAt(v, h);
      NeighboursOf(v, h, k);
      NeighboursOf(v, v[h].next, k);
    }
  }

  lemma PrevBlock(v: Blocks, h: nat)
    requires Linked(v) && h in v
    ensures v[h].prev == 0 || (v[h].prev in v && v[v[h].prev].next == h && LinkedAt(v, v[h].prev))
  {
    assert LinkedAt(v, h);
    if h != HEAP_START { assert LinkedAt(v, v[h].prev); }
  }

  lemma NextBlock(v: Blocks, h: nat)
    requires Linked(v) && h in v
    ensures v[h].next == 0 || (v[h].next in v && h < v[h].next && v[v[h].next].prev == h && LinkedAt(v, v[h].next))
  {
    assert LinkedAt(v, h);
    if v[h].next != 0 { assert LinkedAt(v, v[h].next); }
  }

  lemma FreedKeeps(v: Blocks, h: nat)
    requires Linked(v) && Coalesced(v) && h in v && !v[h].free
    ensures Linked(Freed(v, h)) && Coalesced(Freed(v, h)) && SameTaken(v, Freed(v, h), h)
    ensures h in Freed(v, h) ==> Freed(v, h)[h].free
  {
    PrevBlock(v, h);
    assert LinkedAt(v, h);
    FlaggedLinked(v, h, true);
    var u, p := Flagged(v, h, true), v[h].prev;
    NextBlock(v, h);
    if v[h].next != 0 { NextBlock(v, v[h].next); }
    if p != 0 && u[p].free {
      FreedIntoPrev(v, h);
    } else {
      AbsorbKeeps(u, h);
    }
  }

  lemma FreedIntoPrev(v: Blocks, h: nat)
    requires Linked(v) && Coalesced(v) && h in v && !v[h].free && v[h].prev != 0 && v[h].prev in v && v[v[h].prev].free
    ensures Linked(Freed(v, h)) && Coalesced(Freed(v, h)) && SameTaken(v, Freed(v, h), h) && h !in Freed(v, h)
  {
    var u, p := Flagged(v, h, true), v[h].prev;
    FlaggedLinked(v, h, true);
    PrevBlock(v, h);
    assert LinkedAt(v, h);
    MergeLinked(u, p);
    MergeTaken(u, p);
    MergedBut(v, h);
    AbsorbKeeps(MergeNext(u, p), p);
    assert SameTaken(v, u, h);
    SameThrough(v, u, MergeNext(u, p), Freed(v, h), h);
  }

  lemma SameThrough(v: Blocks, u: Blocks, w: Blocks, r: Blocks, h: nat)
    requires SameTaken(v, u, h) && SameTaken(u, w, 0) && SameTaken(w, r, 0)
    requires Linked(v) && Linked(u) && Linked(w) && Linked(r)
    ensures SameTaken(v, r, h)
  {
    assert 0 !in v && 0 !in u && 0 !in w && 0 !in r by {
      assert (0 in v ==> LinkedAt(v, 0)) && (0 in u ==> LinkedAt(u, 0));
      assert (0 in w ==> LinkedAt(w, 0)) && (0 in r ==> LinkedAt(r, 0));
    }
  }

  /** After the predecessor swallowed the released block, only its new successor may be free. */
  lemma MergedBut(v: Blocks, h: nat)
    requires Linked(v) && Coalesced(v) && h in v && !v[h].free && v[h].prev != 0 && v[h].prev in v
    requires v[v[h].prev].free && v[v[h].prev].next == h
    requires Linked(Flagged(v, h, true)) && v[h].prev != h && (v[h].next != 0 ==> v[h].next in v)
    ensures var w := MergeNext(Flagged(v, h, true), v[h].prev); var p := v[h].prev;
      && CoalescedBut(w, p) && (w[p].prev != 0 && w[p].prev in w ==> !w[w[p].prev].free) && !NextTwoFree(w, p)
  {
    var w, p := MergeNext(Flagged(v, h, true), v[h].prev), v[h].prev;
    PrevBlock(v, p);
    NextBlock(v, h);
    if v[h].next != 0 { NextBlock(v, v[h].next); }
    assert LinkedAt(v, h) && LinkedAt(v, p);
    forall k | k in w && k != p && w[k].free && w[k].next != 0 && w[k].next in w && w[k].next != p
      ensures !w[w[k].next].free
    {
      assert LinkedAt(v, k);
      NeighboursOf(v, h, k);
    }
  }

  /** Relinquishing right after acquiring restores the list exactly. */
  lemma ReleaseRestores(v: Blocks, h: nat, off: nat)
    requires Linked(v) && Coalesced(v) && h in v && v[h].free
    requires HEADER_SIZE + MIN_PAYLOAD <= off <= HEADER_SIZE + v[h].size
    ensures Linked(Granted(v, h, off)) && Freed(Granted(v, h, off), h) == v
  {
    GrantedKeeps(v, h, off);
    PrevBlock(v, h);
    NextBlock(v, h);
    var g := Granted(v, h, off);
    assert Flagged(g, h, true) == Split(v, h, off);
    SplitPrevTaken(v, h, off);
    if Split(v, h, off) != v {
      MergeUndoesSplit(v, h, off);
    }
  }

  lemma SplitPrevTaken(v: Blocks, h: nat, off: nat)
    requires Linked(v) && Coalesced(v) && h in v && v[h].free
    requires HEADER_SIZE + MIN_PAYLOAD <= off <= HEADER_SIZE + v[h].size
    requires v[h].next != 0 ==> v[h].next in v
    ensures var w := Split(v, h, off);
      && w[h].free && w[h].prev == v[h].prev
      && (w[h].prev != 0 ==> w[h].prev in w && !w[w[h].prev].free)
      && (w != v ==> w[h].next == h + off && w[h + off].free)
  {
    PrevBlock(v, h);
    NextBlock(v, h);
    NoHeaderInside(v, h, h + off);
    assert LinkedAt(v, h);
    if v[h].prev != 0 { assert v[v[h].prev].next == h; }
  }

  /** The heap as initialization leaves it. */
  function Whole(): Blocks {
    map[HEAP_START := Header(0, 0, HEAP_END - HEAP_START - HEADER_SIZE, true)]
  }

  lemma WholeLinked()
    ensures Linked(Whole()) && Coalesced(Whole())
  {
  }

  /** Once nothing is taken, the heap is one free block of the original size again. */
  lemma AllFree(v: Blocks)
    requires Linked(v) && Coalesced(v) && forall h | h in v :: v[h].free
    ensures v == Whole()
  {
    NextBlock(v, HEAP_START);
    assert LinkedAt(v, HEAP_START);
    forall h | h in v ensures h == HEAP_START {
      assert LinkedAt(v, h);
      if h > HEAP_START { Apart(v, HEAP_START, h); }
    }
    assert v.Keys == {HEAP_START};
  }

  // ---- The list that starts at the root ----

  ghost function ListFrom(v: Blocks, h: nat): (list: seq<nat>)
    requires Linked(v) && h in v
    ensures list != [] && list[0] == h
    decreases HEAP_END - h
  {
    NextBlock(v, h);
    assert LinkedAt(v, h);
    if v[h].next == 0 then [h] else [h] + ListFrom(v, v[h].next)
  }

  /** Following the links from the root visits every block ... */
  lemma {:induction false} ListComplete(v: Blocks, h: nat, k: nat)
    requires Linked(v) && h in v && k in v && h <= k
    ensures k in ListFrom(v, h)
    decreases HEAP_END - h
  {
    NextBlock(v, h);
    assert LinkedAt(v, h) && LinkedAt(v, k);
    if h < k {
      Apart(v, h, k);
      ListComplete(v, v[h].next, k);
    }
  }

  /** ... in address order and without a gap, to the end of the heap, and every visited block
      points back to the one before it. */
  lemma {:induction false} ListTiles(v: Blocks, h: nat, i: nat)
    requires Linked(v) && h in v && i < |ListFrom(v, h)|
    ensures var list := ListFrom(v, h);
      list[i] in v && EndOf(v, list[i]) == (if i + 1 < |list| then list[i + 1] else HEAP_END)
    ensures var list := ListFrom(v, h); i > 0 ==> list[i] in v && v[list[i]].prev == list[i - 1]
    decreases i
  {
    NextBlock(v, h);
    assert LinkedAt(v, h);
    if i > 0 {
      ListTiles(v, v[h].next, i - 1);
    } else if v[h].next != 0 {
      assert ListFrom(v, v[h].next)[0] == v[h].next;
    }
  }

  // ---- The last block ----

  /** The last block is free, and begins at `bound` at the latest. */
  ghost predicate TailBelow(v: Blocks, bound: nat) {
    forall h {:trigger v[h]} | h in v && v[h].next == 0 :: v[h].free && h <= bound
  }

  /** There is a last block, and it reaches to the end of the heap. */
  lemma LastBlock(v: Blocks) returns (t: nat)
    requires Linked(v)
    ensures t in v && v[t].next == 0 && EndOf(v, t) == HEAP_END
  {
    var list := ListFrom(v, HEAP_START);
    t := list[|list| - 1];
    ListTiles(v, HEAP_START, |list| - 1);
    assert LinkedAt(v, t);
    NextBlock(v, t);
  }

  /** A cut of at most `cost` bytes moves the last block up by as much at most, and leaves it free. */
  lemma GrantedTail(v: Blocks, h: nat, off: nat, bound: nat, cost: nat)
    requires Linked(v) && h in v && v[h].free && HEADER_SIZE + MIN_PAYLOAD <= off <= HEADER_SIZE + v[h].size
    requires TailBelow(v, bound) && off <= cost && bound + cost + HEADER_SIZE + MIN_PAYLOAD <= HEAP_END
    ensures TailBelow(Granted(v, h, off), bound + cost)
  {
    NextBlock(v, h);
    assert LinkedAt(v, h);
    SplitLinked(v, h, off);
    NoHeaderInside(v, h, h + off);
    var w := Granted(v, h, off);
    forall k | k in w && w[k].next == 0 ensures w[k].free && k <= bound + cost {
      if v[h].next == 0 && k in v && v[k].next == 0 { OneLast(v, h, k); }
    }
  }

  /** Only one block is the last. */
  lemma OneLast(v: Blocks, h: nat, k: nat)
    requires Linked(v) && h in v && k in v && v[h].next == 0 && v[k].next == 0
    ensures h == k
  {
    assert LinkedAt(v, h) && LinkedAt(v, k);
    if h < k { Apart(v, h, k); }
    if k < h { Apart(v, k, h); }
  }

  lemma MergedTail(v: Blocks, h: nat, bound: nat)
    requires Linked(v) && h in v && v[h].free && v[h].next != 0 && TailBelow(v, bound)
    ensures v[h].next in v && v[h].next != h && (v[v[h].next].next != 0 ==> v[v[h].next].next in v)
    ensures TailBelow(MergeNext(v, h), bound)
  {
    MergeLinked(v, h);
    NextBlock(v, h);
    var w := MergeNext(v, h);
    forall k | k in w && w[k].next == 0 ensures w[k].free && k <= bound {
      if k != h { assert v[k].next == 0; }
    }
  }

  /** A release leaves the last block free, and no higher; so no block is ever the last behind a free
      one. */
  lemma FreedTail(v: Blocks, h: nat, bound: nat)
    requires Linked(v) && Coalesced(v) && h in v && !v[h].free && TailBelow(v, bound)
    ensures TailBelow(Freed(v, h), bound) && v[h].next != 0
  {
    PrevBlock(v, h);
    NextBlock(v, h);
    FlaggedLinked(v, h, true);
    var u := Flagged(v, h, true);
    assert TailBelow(u, bound);
    var p := v[h].prev;
    assert LinkedAt(v, h);
    if p != 0 && v[p].free {
      MergeLinked(u, p);
      MergedTail(u, p, bound);
      AbsorbedTail(MergeNext(u, p), p, bound);
    } else {
      AbsorbedTail(u, h, bound);
    }
  }

  lemma AbsorbedTail(v: Blocks, h: nat, bound: nat)
    requires Linked(v) && h in v && v[h].free && TailBelow(v, bound)
    ensures TailBelow(AbsorbNext(v, h), bound)
  {
    NextBlock(v, h);
    if v[h].next != 0 && v[v[h].next].free { MergedTail(v, h, bound); }
  }
}
