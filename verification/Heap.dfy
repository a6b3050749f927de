/** The kernel heap (Kernel/Source/Memory/Krnlheap.c): first fit with alignment padding. */
module Heap {
  import opened Machine
  import opened HeapBlocks
  import opened HeapMemory

  const WORD: nat := 0x1_0000_0000_0000_0000

  /** Addition and subtraction of machine words. */
  function Plus(a: nat, b: nat): nat {
    if a + b < WORD then a + b else a + b - WORD
  }

  function Minus(a: nat, b: nat): nat
    requires b <= WORD
  {
    if a >= b then a - b else a + WORD - b
  }

  predicate PowerOfTwo(n: nat) {
    n == 1 || (n > 1 && n % 2 == 0 && PowerOfTwo(n / 2))
  }

  /** `x` with the bits below `alignment` cleared. */
  function Masked(x: nat, alignment: nat): (r: nat)
    requires PowerOfTwo(alignment)
    ensures r <= x < r + alignment
    ensures Multiple(r, alignment)
  {
    if alignment == 1 then x else 2 * Masked(x / 2, alignment / 2)
  }

  predicate Multiple(x: nat, alignment: nat)
    requires PowerOfTwo(alignment)
  {
    alignment == 1 || (x % 2 == 0 && Multiple(x / 2, alignment / 2))
  }

  lemma {:induction false} MultipleIs(x: nat, alignment: nat)
    requires PowerOfTwo(alignment)
    ensures Multiple(x, alignment) <==> x % alignment == 0
  {
    if alignment > 1 {
      MultipleIs(x / 2, alignment / 2);
      Doubled(x, alignment);
    }
  }

  lemma Doubled(x: nat, alignment: nat)
    requires alignment > 1 && alignment % 2 == 0
    ensures x % alignment == 2 * ((x / 2) % (alignment / 2)) + x % 2
  {
    var m := alignment / 2;
    var q, r := (x / 2) / m, (x / 2) % m;
    assert x / 2 == m * q + r;
    assert x == alignment * q + (2 * r + x % 2) by { assert alignment * q == 2 * (m * q); }
    DivMod(alignment, q, 2 * r + x % 2);
  }

  /** KrtlAlignUpToPowerOfTwo; the sum wraps at 64 bits. */
  function AlignUp(x: nat, alignment: nat): (r: nat)
    requires PowerOfTwo(alignment)
    ensures Multiple(r, alignment) && (x + alignment <= WORD ==> x <= r < x + alignment)
  {
    Masked(Plus(x, alignment - 1), alignment)
  }


  /** Rounding a request up keeps it at least as large exactly when the sum does not wrap. */
  lemma RequestRounds(n: nat, alignment: nat)
    requires 0 < n < WORD && PowerOfTwo(alignment) && alignment <= WORD
    ensures AlignUp(n, alignment) >= n <==> n + alignment <= WORD
  {
  }

  /** Where the payload of a request would stand in the block at `h`: aligned, and far enough from
      the header for the back word. */
  function PayloadAt(h: nat, alignment: nat): nat
    requires PowerOfTwo(alignment) && h <= HEAP_END
  {
    var first := AlignUp(h + HEADER_SIZE, alignment);
    var tolerance := Minus(first, h + HEADER_SIZE);
    if tolerance < BACK_SIZE then AlignUp(Plus(first, BACK_SIZE - tolerance), alignment) else first
  }

  function Padding(h: nat, alignment: nat): nat
    requires PowerOfTwo(alignment) && h <= HEAP_END
  {
    Minus(PayloadAt(h, alignment), h + HEADER_SIZE)
  }

  /** The payload is aligned and leaves room for the back word; at most one byte more than the
      alignment is lost. */
  lemma PayloadIs(h: nat, alignment: nat)
    requires HEAP_START <= h <= HEAP_END && PowerOfTwo(alignment) && alignment < 0x1_0000_0000
    ensures PayloadAt(h, alignment) == h + HEADER_SIZE + Padding(h, alignment)
    ensures Multiple(PayloadAt(h, alignment), alignment)
    ensures BACK_SIZE <= Padding(h, alignment) <= alignment + 1
  {
    var start := h + HEADER_SIZE;
    var first := AlignUp(start, alignment);
    assert Minus(first, start) == first - start;
    if first - start < BACK_SIZE {
      assert PayloadAt(h, alignment) == AlignUp(start + BACK_SIZE, alignment);
      assert start + BACK_SIZE <= PayloadAt(h, alignment) < start + BACK_SIZE + alignment;
    } else {
      assert PayloadAt(h, alignment) == first;
    }
  }

  lemma {:induction false} MultiplesApart(x: nat, y: nat, alignment: nat)
    requires PowerOfTwo(alignment) && Multiple(x, alignment) && Multiple(y, alignment) && x < y
    ensures x + alignment <= y
  {
    if alignment > 1 { MultiplesApart(x / 2, y / 2, alignment / 2); }
  }

  lemma {:induction false} NextMultiple(x: nat, alignment: nat)
    requires PowerOfTwo(alignment) && Multiple(x, alignment)
    ensures Multiple(x + alignment, alignment)
  {
    if alignment > 1 {
      NextMultiple(x / 2, alignment / 2);
      assert (x + alignment) / 2 == x / 2 + alignment / 2;
    }
  }

  /** One byte before a multiple there is no room for the back word: a whole step is lost. */
  lemma WastesMost(h: nat, edge: nat, alignment: nat)
    requires PowerOfTwo(alignment) && 1 < alignment < 0x1_0000_0000 && Multiple(edge, alignment)
    requires HEAP_START <= h <= HEAP_END && h + HEADER_SIZE + 1 == edge
    ensures Padding(h, alignment) == alignment + 1
  {
    var start := h + HEADER_SIZE;
    var first := AlignUp(start, alignment);
    if first < edge { MultiplesApart(first, edge, alignment); }
    if first > edge { MultiplesApart(edge, first, alignment); }
    PayloadIs(h, alignment);
    var second := PayloadAt(h, alignment);
    NextMultiple(edge, alignment);
    MultiplesApart(edge, second, alignment);
  }

  /** A place where a payload of the smallest size is smaller than the padding. */
  lemma WrapsAbove16(alignment: nat) returns (h: nat)
    requires PowerOfTwo(alignment) && 16 < alignment < 0x1_0000_0000
    ensures HEAP_START <= h && h + HEADER_SIZE + MIN_PAYLOAD <= HEAP_END && Padding(h, alignment) > MIN_PAYLOAD
  {
    SmallPowers();
    PowersApart(alignment, 16);
    var edge := Masked(HEAP_START + 2 * alignment, alignment);
    h := edge - 1 - HEADER_SIZE;
    WastesMost(h, edge, alignment);
  }

  ghost predicate PlaceFits(h: nat, size: nat, alignment: nat)
    requires PowerOfTwo(alignment)
  {
    HEAP_START <= h && MIN_PAYLOAD <= size && h + HEADER_SIZE + size <= HEAP_END ==> Padding(h, alignment) <= size
  }

  /** The fit test subtracts the padding from the payload size. Over all places and sizes of
      blocks it never wraps exactly when the alignment is at most 16. */
  lemma NeverWraps(alignment: nat)
    requires PowerOfTwo(alignment) && alignment < 0x1_0000_0000
    ensures alignment <= 16 <==> forall h: nat, size: nat :: PlaceFits(h, size, alignment)
  {
    if alignment <= 16 {
      forall h: nat, size: nat ensures PlaceFits(h, size, alignment) {
        if HEAP_START <= h <= HEAP_END { PayloadIs(h, alignment); }
      }
    } else {
      var h := WrapsAbove16(alignment);
      assert !PlaceFits(h, MIN_PAYLOAD, alignment);
    }
  }

  /** The distance stored in front of a payload: a word of 16 bits. */
  function BackWord(h: nat, ptr: nat): nat
    requires h <= ptr
  {
    (ptr - h) % (MAX_BACK + 1)
  }

  /** The back word leads back to the header exactly when the distance fits its 16 bits. */
  lemma BackWordExactly(h: nat, ptr: nat)
    requires h <= ptr
    ensures ptr - BackWord(h, ptr) == h <==> ptr - h <= 0xFFFF
    ensures BackWord(h, ptr) <= 0xFFFF && (ptr - h - BackWord(h, ptr)) % 0x1_0000 == 0
  {
  }

  lemma {:induction false} PowersApart(a: nat, b: nat)
    requires PowerOfTwo(a) && PowerOfTwo(b) && b < a
    ensures 2 * b <= a
  {
    if b > 1 { PowersApart(a / 2, b / 2); }
  }

  lemma SmallPowers()
    ensures PowerOfTwo(16) && PowerOfTwo(32) && PowerOfTwo(0x8000) && PowerOfTwo(0x1_0000)
  {
    assert PowerOfTwo(2) && PowerOfTwo(4) && PowerOfTwo(8) && PowerOfTwo(16) && PowerOfTwo(32) && PowerOfTwo(64);
    assert PowerOfTwo(128) && PowerOfTwo(256) && PowerOfTwo(512) && PowerOfTwo(1024) && PowerOfTwo(2048);
    assert PowerOfTwo(0x1000) && PowerOfTwo(0x2000) && PowerOfTwo(0x4000) && PowerOfTwo(0x8000);
  }

  /** A payload never lies too far from its header, wherever that is, if and only if the alignment is at
      most 2^15. */
  lemma NamesHeader(alignment: nat)
    requires PowerOfTwo(alignment) && alignment < 0x1_0000_0000
    ensures alignment <= 0x8000 <==>
      forall h: nat | HEAP_START <= h <= HEAP_END :: PayloadAt(h, alignment) - h <= MAX_BACK
  {
    if alignment <= 0x8000 {
      forall h: nat | HEAP_START <= h <= HEAP_END ensures PayloadAt(h, alignment) - h <= MAX_BACK {
        PayloadIs(h, alignment);
      }
    } else {
      SmallPowers();
      PowersApart(alignment, 0x8000);
      var h := Masked(HEAP_START + 2 * alignment, alignment);
      PayloadIs(h, alignment);
      MultiplesApart(h, PayloadAt(h, alignment), alignment);
      assert PayloadAt(h, alignment) - h > MAX_BACK;
    }
  }

  // ---- The heap ----

  /** What a caller holds: `n` bytes at `ptr`, in the block of some header. */
  datatype Grant = Grant(ptr: nat, n: nat, alignment: nat)

  /** The grant lies in the block at `h`, behind its back word, which holds the distance to `h` as far as
      its 16 bits can. */
  ghost predicate GrantAt(v: Blocks, m: Memory, h: nat, g: Grant) {
    && h in v && h + HEADER_SIZE + BACK_SIZE <= g.ptr && g.ptr + g.n <= EndOf(v, h)
    && g.n >= MIN_PAYLOAD && g.alignment > 0 && g.ptr % g.alignment == 0
    && WordAt(m, g.ptr - BACK_SIZE, BackWord(h, g.ptr))
  }

  /** Exactly the taken blocks are granted. */
  ghost predicate GrantsFit(v: Blocks, m: Memory, grants: map<nat, Grant>) {
    && (forall h {:trigger h in grants} {:trigger v[h]} :: h in grants <==> h in v && !v[h].free)
    && (forall h {:trigger grants[h]} | h in grants :: GrantAt(v, m, h, grants[h]))
  }

  /** The bytes of the grants and of their back words are as they were. */
  ghost predicate Kept(was: Memory, now: Memory, grants: map<nat, Grant>) {
    forall h, a: nat {:trigger grants[h], Byte(now, a)} |
      h in grants && grants[h].ptr <= a + BACK_SIZE && a < grants[h].ptr + grants[h].n :: Byte(now, a) == Byte(was, a)
  }

  ghost predicate Fits(v: Blocks, h: nat, n: nat, alignment: nat)
    requires PowerOfTwo(alignment)
  {
    h in v && v[h].free && h <= HEAP_END && Padding(h, alignment) + n <= v[h].size
  }

  /** No fit test of the request wraps. */
  ghost predicate NoWrap(v: Blocks, alignment: nat)
    requires PowerOfTwo(alignment)
  {
    forall h {:trigger v[h]} | h in v && v[h].free && h <= HEAP_END :: Padding(h, alignment) <= v[h].size
  }

  ghost predicate FirstFit(v: Blocks, h: nat, n: nat, alignment: nat)
    requires PowerOfTwo(alignment)
  {
    Fits(v, h, n, alignment) && forall k {:trigger v[k]} | k in v && k < h :: !Fits(v, k, n, alignment)
  }

  /** The block passes the test of the code, whose subtraction wraps at 64 bits. */
  ghost predicate Passes(v: Blocks, h: nat, n: nat, alignment: nat)
    requires PowerOfTwo(alignment)
  {
    && h in v && v[h].free && h <= HEAP_END
    && var room := v[h].size - Padding(h, alignment); n <= if room >= 0 then room else room + WORD
  }

  /** A block passes exactly when the request fits or the subtraction wraps; so none that is too small
      does if none wraps. */
  lemma PassesExactly(v: Blocks, h: nat, n: nat, alignment: nat)
    requires Linked(v) && PowerOfTwo(alignment) && alignment < 0x1_0000_0000 && n <= WORD - 0x1_0000_0001
    ensures Passes(v, h, n, alignment) <==>
      Fits(v, h, n, alignment) || (h in v && v[h].free && h <= HEAP_END && v[h].size < Padding(h, alignment))
  {
    if h in v {
      assert LinkedAt(v, h);
      PayloadIs(h, alignment);
    }
  }

  lemma PassesIsFits(v: Blocks, n: nat, alignment: nat)
    requires PowerOfTwo(alignment) && NoWrap(v, alignment)
    ensures forall h :: Passes(v, h, n, alignment) <==> Fits(v, h, n, alignment)
  {
  }

  /** In no state of the heap does a request with an alignment of at most 16 wrap. */
  lemma NoWrapUpTo16(v: Blocks, alignment: nat)
    requires Linked(v) && PowerOfTwo(alignment) && alignment <= 16
    ensures NoWrap(v, alignment)
  {
    forall h | h in v && v[h].free && h <= HEAP_END ensures Padding(h, alignment) <= v[h].size {
      assert LinkedAt(v, h);
      PayloadIs(h, alignment);
    }
  }

  /** The back word and the bytes of a grant meet no byte of another block: not its header, not its
      back word, not its payload. */
  lemma GrantsApart(v: Blocks, m: Memory, grants: map<nat, Grant>, h: nat, k: nat)
    requires Linked(v) && GrantsFit(v, m, grants) && h in grants && k in v && h != k
    ensures h + HEADER_SIZE <= grants[h].ptr - BACK_SIZE
    ensures grants[h].ptr + grants[h].n <= k || EndOf(v, k) <= grants[h].ptr - BACK_SIZE
  {
    if h < k { Apart(v, h, k); } else { Apart(v, k, h); }
  }

  /** The test of one free block. */
  method TestBlock(h: nat, size: nat, n: nat, alignment: nat) returns (fits: bool, payload: nat)
    requires HEAP_START <= h <= HEAP_END && PowerOfTwo(alignment) && alignment < 0x1_0000_0000
    ensures var room := size - Padding(h, alignment); fits <==> n <= if room >= 0 then room else room + WORD
    ensures payload == PayloadAt(h, alignment)
  {
    PayloadIs(h, alignment);
    payload := AlignUp(h + HEADER_SIZE, alignment);
    var tolerance := Minus(payload, h + HEADER_SIZE);
    if tolerance < BACK_SIZE {
      payload := AlignUp(Plus(payload, BACK_SIZE - tolerance), alignment);
      tolerance := Minus(payload, h + HEADER_SIZE);
    }
    fits := Minus(size, tolerance) >= n;
  }

  lemma AboveStart(v: Blocks)
    requires Linked(v)
    ensures forall h | h in v :: HEAP_START <= h
  {
    forall h | h in v ensures HEAP_START <= h { assert LinkedAt(v, h); }
  }

  class KernelHeap {
    var memory: Memory
    var root: nat

    ghost var blocks: Blocks            // the headers in the list
    ghost var grants: map<nat, Grant>   // what callers hold, by header

    ghost predicate Valid()
      reads this
    {
      && root == HEAP_START && Stored(memory, blocks)
      && Linked(blocks) && Coalesced(blocks) && GrantsFit(blocks, memory, grants)
    }

    /** HeapInit, once the region is acquired: whatever its bytes are, the first header is stored. */
    constructor Init(region: Memory)
      ensures Valid() && blocks == Whole() && grants == map[]
      ensures blocks == map[0xFFFF_FF80_0000_0000 := Header(0, 0, 0x40_0000_0000 - HEADER_SIZE, true)]
    {
      root := HEAP_START;
      memory := StoreHeader(region, HEAP_START, Header(0, 0, HEAP_END - HEAP_START - HEADER_SIZE, true));
      blocks, grants := Whole(), map[];
      WholeLinked();
    }

    /** Reading a header of the list. */
    method ReadHeader(h: nat, ghost v: Blocks) returns (x: Header)
      requires Stored(memory, v) && h in v
      ensures x == v[h]
    {
      HeaderLoads(memory, v, h);
      x := LoadHeader(memory, h);
    }

    /** Storing a header among the headers at `keys`. */
    method WriteHeader(h: nat, x: Header, ghost v: Blocks, ghost was: Memory, ghost keys: set<nat>)
      requires Stored(memory, v) && Spaced(keys) && v.Keys <= keys && h in keys && Elsewhere(was, memory, keys)
      modifies `memory
      ensures Stored(memory, v[h := x]) && Elsewhere(was, memory, keys)
    {
      StoreKeeps(memory, v, h, x, keys);
      StoreElsewhere(was, memory, h, x, keys);
      memory := StoreHeader(memory, h, x);
    }

    /** A caller writes to memory it holds. */
    method Write(ptr: nat, i: nat, value: bv8, ghost h: nat)
      requires Valid() && h in grants && grants[h].ptr == ptr && i < grants[h].n
      modifies `memory
      ensures Valid() && memory == StoreByte(old(memory), ptr + i, Data(value))
    {
      WriteKeeps(blocks, memory, grants, h, i, value);
      memory := StoreByte(memory, ptr + i, Data(value));
    }

    /** HeapLocateAlignedFreeOfSizeFrom, from the root: the first block that passes the test. */
    method Locate(n: nat, alignment: nat) returns (h: nat, payload: nat)
      requires Valid() && PowerOfTwo(alignment) && alignment < 0x1_0000_0000
      ensures h != 0 ==> Passes(blocks, h, n, alignment) && payload == PayloadAt(h, alignment)
      ensures forall k {:trigger blocks[k]} | k in blocks && (h == 0 || k < h) :: !Passes(blocks, k, n, alignment)
    {
      h, payload := root, 0;
      AboveStart(blocks);
      while h != 0
        invariant h != 0 ==> h in blocks
        invariant forall k {:trigger blocks[k]} | k in blocks && (h == 0 || k < h) :: !Passes(blocks, k, n, alignment)
        decreases if h == 0 then 0 else HEAP_END - h + 1
      {
        var fits, next;
        fits, payload, next := TestAt(h, n, alignment);
        if fits { return; }
        PassBlock(blocks, h);
        h := next;
      }
    }

    /** One block of the list. */
    method TestAt(h: nat, n: nat, alignment: nat) returns (passes: bool, payload: nat, next: nat)
      requires Valid() && PowerOfTwo(alignment) && alignment < 0x1_0000_0000 && h in blocks
      ensures passes <==> Passes(blocks, h, n, alignment)
      ensures h <= HEAP_END && next == blocks[h].next && (passes ==> payload == PayloadAt(h, alignment))
    {
      assert LinkedAt(blocks, h);
      var block := ReadHeader(h, blocks);
      passes, payload, next := false, 0, block.next;
      if block.free {
        passes, payload := TestBlock(h, block.size, n, alignment);
      }
    }

    /** HeapTrySplitAt with HeapCanSplitAt. */
    method TrySplit(h: nat, off: nat)
      requires Stored(memory, blocks) && Linked(blocks) && h in blocks
      requires HEADER_SIZE + MIN_PAYLOAD <= off <= HEADER_SIZE + blocks[h].size
      modifies `memory, `blocks
      ensures old(blocks[h].next != 0 ==> blocks[h].next in blocks) && blocks == Split(old(blocks), h, off)
      ensures Stored(memory, blocks) && Linked(blocks) && Elsewhere(old(memory), memory, blocks.Keys)
    {
      SplitLinked(blocks, h, off);
      var ref := ReadHeader(h, blocks);
      var end := h + HEADER_SIZE + ref.size;
      if off > end - h || end - (h + off) < MIN_PAYLOAD + HEADER_SIZE {
        return;
      }
      SplitAt(h, ref, h + off, end - (h + off));
    }

    /** Its second half, once the cut is known to be possible. */
    method SplitAt(h: nat, ref: Header, into: nat, cut: nat)
      requires Stored(memory, blocks) && Linked(blocks) && h in blocks && ref == blocks[h]
      requires into == EndOf(blocks, h) - cut && cut >= MIN_PAYLOAD + HEADER_SIZE
      requires h + HEADER_SIZE + MIN_PAYLOAD <= into
      requires ref.next != 0 ==> ref.next in blocks
      modifies `memory, `blocks
      ensures blocks == Split(old(blocks), h, into - h)
      ensures Stored(memory, blocks) && Linked(blocks) && Elsewhere(old(memory), memory, blocks.Keys)
    {
      ghost var v, m, w := blocks, memory, Split(blocks, h, into - h);
      SplitLinked(v, h, into - h);
      LinkedSpaced(w);
      NextBlock(v, h);
      SplitSteps(v, h, into);
      StoreRest(h, ref, into, cut, v, w.Keys);
      Shorten(h, into, cut, WithRest(v, h, into), m, w.Keys);
      blocks := w;
    }

    /** The new header, and the back pointer of the block after it. */
    method StoreRest(h: nat, ref: Header, into: nat, cut: nat, ghost v: Blocks, ghost keys: set<nat>)
      requires Stored(memory, v) && h in v && ref == v[h] && into == EndOf(v, h) - cut && cut >= HEADER_SIZE
      requires h < into && (ref.next != 0 ==> ref.next in v && ref.next != into)
      requires Spaced(keys) && v.Keys <= keys && into in keys
      modifies `memory
      ensures Stored(memory, WithRest(v, h, into)) && Elsewhere(old(memory), memory, keys)
    {
      ghost var m := memory;
      WriteHeader(into, Header(h, ref.next, cut - HEADER_SIZE, true), v, m, keys);
      ghost var u := v[into := Header(h, ref.next, cut - HEADER_SIZE, true)];
      if ref.next != 0 {
        var next := ReadHeader(ref.next, u);
        WriteHeader(ref.next, next.(prev := into), u, m, keys);
      }
    }

    /** The header that was cut gets its new successor and size. */
    method Shorten(h: nat, into: nat, cut: nat, ghost u: Blocks, ghost was: Memory, ghost keys: set<nat>)
      requires Stored(memory, u) && h in u && cut <= u[h].size
      requires Spaced(keys) && u.Keys <= keys && Elsewhere(was, memory, keys)
      modifies `memory
      ensures Stored(memory, u[h := u[h].(next := into, size := u[h].size - cut)]) && Elsewhere(was, memory, keys)
    {
      var block := ReadHeader(h, u);
      WriteHeader(h, block.(next := into), u, was, keys);
      ghost var u1 := u[h := block.(next := into)];
      block := ReadHeader(h, u1);
      WriteHeader(h, block.(size := block.size - cut), u1, was, keys);
      StoredPart(memory, u1[h := block.(size := block.size - cut)],
        u[h := u[h].(next := into, size := u[h].size - cut)]);
    }

    method Take(h: nat, ghost was: Memory)
      requires Stored(memory, blocks) && Linked(blocks) && h in blocks && Elsewhere(was, memory, blocks.Keys)
      modifies `memory, `blocks
      ensures blocks == Flagged(old(blocks), h, false) && Stored(memory, blocks)
      ensures Elsewhere(was, memory, blocks.Keys)
    {
      LinkedSpaced(blocks);
      var block := ReadHeader(h, blocks);
      WriteHeader(h, block.(free := false), blocks, was, blocks.Keys);
      FlaggedKeys(blocks, h, false);
      blocks := Flagged(blocks, h, false);
    }

    /** HeapAlignedAcquire; a result of 0 is the null pointer. The first block in the list that can
        hold the rounded request is cut and granted; nothing else changes. The check of the distance to
        the header compares with -1 as a 64-bit number, so it refuses nothing. */
    method Acquire(n: nat, alignment: nat) returns (ptr: nat, ghost h: nat)
      requires Valid() && n < WORD && alignment < 0x1_0000_0000
      requires PowerOfTwo(alignment) ==> NoWrap(blocks, alignment) && Rounded(n) + alignment <= WORD
      modifies this
      ensures Valid()
      ensures ptr == 0 ==> blocks == old(blocks) && grants == old(grants)
      ensures ptr == 0 <==> n == 0 || !PowerOfTwo(alignment) || NoPlace(old(blocks), Request(n, alignment), alignment)
      ensures ptr != 0 ==> Placed(old(blocks), old(grants), blocks, grants, h, ptr, Request(n, alignment), alignment)
      ensures Kept(old(memory), memory, old(grants))
    {
      h := 0;
      if n == 0 || alignment == 0 || !PowerOfTwo(alignment) {
        return 0, h;
      }
      var rounded := AlignUp(if n < MIN_PAYLOAD then MIN_PAYLOAD else n, alignment);
      PassesIsFits(blocks, rounded, alignment);
      var header, payload := Locate(rounded, alignment);
      if header == 0 {
        return 0, h;
      }
      h := header;
      GrantFits(blocks, header, rounded, alignment);
      assert Fits(blocks, header, rounded, alignment);
      Grow(header, payload, rounded, alignment);
      ptr := payload;
    }

    method Cut(h: nat, off: nat)
      requires Stored(memory, blocks) && Linked(blocks) && Coalesced(blocks) && h in blocks && blocks[h].free
      requires HEADER_SIZE + MIN_PAYLOAD <= off <= HEADER_SIZE + blocks[h].size
      modifies `memory, `blocks
      ensures GrantedAs(old(blocks), blocks, h, off)
      ensures Stored(memory, blocks) && Linked(blocks) && Coalesced(blocks)
      ensures Elsewhere(old(memory), memory, blocks.Keys)
    {
      ghost var v, m := blocks, memory;
      TrySplit(h, off);
      Take(h, m);
      GrantedKeeps(v, h, off);
    }

    /** The back word, the cut, the flag. */
    method Grow(h: nat, payload: nat, n: nat, alignment: nat)
      requires Valid() && PowerOfTwo(alignment) && FirstFit(blocks, h, n, alignment)
      requires payload == PayloadAt(h, alignment)
      requires h + HEADER_SIZE + BACK_SIZE <= payload && payload + n <= EndOf(blocks, h)
      requires Multiple(payload, alignment) && n >= MIN_PAYLOAD
      modifies this
      ensures Valid() && Placed(old(blocks), old(grants), blocks, grants, h, payload, n, alignment)
      ensures Kept(old(memory), memory, old(grants))
    {
      ghost var v, g, m := blocks, grants, memory;
      MultipleIs(payload, alignment);
      WordKeepsHeaders(memory, blocks, h, payload - BACK_SIZE, BackWord(h, payload));
      memory := StoreWord(memory, payload - BACK_SIZE, BackWord(h, payload));
      Cut(h, payload + n - h);
      GrantsGrow(v, blocks, m, memory, g, h, Grant(payload, n, alignment));
      grants := g[h := Grant(payload, n, alignment)];
    }

    /** Writing a merged header; the successor's back pointer is written last. */
    method MergeInto(h: nat, next: nat, ghost was: Memory, ghost keys: set<nat>)
      requires Stored(memory, blocks) && Linked(blocks) && h in blocks && blocks[h].next == next != 0
      requires Spaced(keys) && blocks.Keys <= keys && Elsewhere(was, memory, keys)
      modifies `memory, `blocks
      ensures next in old(blocks) && next != h && old(blocks[next].next != 0 ==> blocks[next].next in blocks)
      ensures blocks == MergeNext(old(blocks), h) && Stored(memory, blocks) && Linked(blocks)
      ensures blocks.Keys <= keys && Elsewhere(was, memory, keys)
    {
      ghost var v := blocks;
      MergeLinked(v, h);
      NextBlock(v, h);
      NextBlock(v, next);
      var gone := ReadHeader(next, v);
      var block := ReadHeader(h, v);
      WriteHeader(h, block.(size := block.size + (gone.size + HEADER_SIZE)), v, was, keys);
      ghost var u := v[h := block.(size := block.size + (gone.size + HEADER_SIZE))];
      block := ReadHeader(h, u);
      WriteHeader(h, block.(next := gone.next), u, was, keys);
      u := u[h := block.(next := gone.next)];
      if gone.next != 0 {
        var after := ReadHeader(gone.next, u);
        WriteHeader(gone.next, after.(prev := h), u, was, keys);
        u := u[gone.next := after.(prev := h)];
      }
      blocks := MergeNext(v, h);
      StoredPart(memory, u, blocks);
    }

    /** HeapRelinquish, of a pointer that is held, not too far from its header, or lies outside the heap.
        When the last block is released behind a free one, the real code writes through a null pointer. */
    method Relinquish(ptr: nat) returns (outcome: Outcome, ghost h: nat)
      requires Valid() && (HEAP_START <= ptr < HEAP_END ==> Held(grants, ptr))
      modifies this
      ensures outcome == Refused <==> !(HEAP_START <= ptr < HEAP_END)
      ensures outcome == Refused ==> Valid() && blocks == old(blocks) && grants == old(grants)
      ensures outcome != Refused ==> h in old(grants) && old(grants)[h].ptr == ptr
      ensures outcome == NullWrite <==> outcome != Refused && LastAfterFree(old(blocks), h)
      ensures outcome == Released ==> Valid() && FreedAs(old(blocks), blocks, h) && grants == old(grants) - {h}
      ensures outcome != NullWrite ==> Kept(old(memory), memory, grants)
    {
      h := 0;
      if ptr < HEAP_START || ptr >= HEAP_END {
        return Refused, h;
      }
      var header := HeaderOf(ptr);
      h := header;
      var block := ReadHeader(header, blocks);
      if block.free {
        return Refused, h;
      }
      outcome := Release(header);
    }

    /** The back word of a pointer that is held leads to its header. */
    method HeaderOf(ptr: nat) returns (h: nat)
      requires Valid() && Held(grants, ptr)
      ensures h in grants && grants[h].ptr == ptr && h in blocks && !blocks[h].free
    {
      ghost var h0 :| h0 in grants && grants[h0].ptr == ptr && ptr - h0 <= MAX_BACK;
      assert GrantAt(blocks, memory, h0, grants[h0]);
      BackWordExactly(h0, ptr);
      h := ptr - LoadWord(memory, ptr - BACK_SIZE);
    }

    method Release(h: nat) returns (outcome: Outcome)
      requires Valid() && h in grants
      modifies this
      ensures outcome == if LastAfterFree(old(blocks), h) then NullWrite else Released
      ensures outcome == Released ==> Valid() && FreedAs(old(blocks), blocks, h) && grants == old(grants) - {h}
      ensures outcome == Released ==> Kept(old(memory), memory, grants)
    {
      ghost var v, g, m := blocks, grants, memory;
      outcome := FreeBlock(h);
      if outcome == Released {
        FreedKeeps(v, h);
        GrantsShrink(v, m, memory, g, h);
        grants := grants - {h};
      }
    }

    /** The flag and the two merges. */
    method FreeBlock(h: nat) returns (outcome: Outcome)
      requires Stored(memory, blocks) && Linked(blocks) && Coalesced(blocks) && h in blocks && !blocks[h].free
      modifies `memory, `blocks
      ensures outcome == if LastAfterFree(old(blocks), h) then NullWrite else Released
      ensures outcome == Released ==> FreedAs(old(blocks), blocks, h) && Stored(memory, blocks)
      ensures outcome == Released ==> Elsewhere(old(memory), memory, old(blocks).Keys)
    {
      outcome := Released;
      ghost var v, m := blocks, memory;
      PrevBlock(blocks, h);
      NextBlock(blocks, h);
      FlaggedLinked(blocks, h, true);
      FlaggedKeys(blocks, h, true);
      LinkedSpaced(blocks);
      var block := ReadHeader(h, blocks);
      WriteHeader(h, block.(free := true), blocks, m, v.Keys);
      blocks := Flagged(blocks, h, true);
      var prev, next := block.prev, block.next;
      var ref := h;
      if prev != 0 {
        var before := ReadHeader(prev, blocks);
        if before.free {
          if next == 0 {
            return NullWrite;
          }
          assert LinkedAt(v, h);
          MergeInto(prev, h, m, v.Keys);
          ref := prev;
          assert next in blocks;
        }
      }
      if next != 0 {
        var after := ReadHeader(next, blocks);
        if after.free {
          MergeInto(ref, next, m, v.Keys);
        }
      }
    }
  }

  /** The headers after a split has stored the rest, and before it cuts the first block. */
  ghost function WithRest(v: Blocks, h: nat, into: nat): Blocks
    requires h in v && h < into && into + HEADER_SIZE <= EndOf(v, h)
    requires v[h].next != 0 ==> v[h].next in v && v[h].next != into
  {
    var u := v[into := Header(h, v[h].next, EndOf(v, h) - into - HEADER_SIZE, true)];
    if v[h].next == 0 then u else u[v[h].next := v[v[h].next].(prev := into)]
  }

  lemma SplitSteps(v: Blocks, h: nat, into: nat)
    requires Linked(v) && h in v && h + HEADER_SIZE <= into && into + HEADER_SIZE + MIN_PAYLOAD <= EndOf(v, h)
    ensures (v[h].next != 0 ==> v[h].next in v && v[h].next != into && v[h].next != h) && into !in v
    ensures var u, cut := WithRest(v, h, into), EndOf(v, h) - into;
      && u.Keys <= Split(v, h, into - h).Keys && into in Split(v, h, into - h)
      && u[h].size == v[h].size && Split(v, h, into - h) == u[h := u[h].(next := into, size := u[h].size - cut)]
  {
    NextBlock(v, h);
    NoHeaderInside(v, h, into);
  }

  lemma FlaggedKeys(v: Blocks, h: nat, free: bool)
    requires h in v
    ensures Flagged(v, h, free).Keys == v.Keys
  {
  }

  lemma StoredPart(m: Memory, u: Blocks, v: Blocks)
    requires Stored(m, u) && forall h {:trigger h in v} {:trigger v[h]} | h in v :: h in u && u[h] == v[h]
    ensures Stored(m, v)
  {
    forall h | h in v ensures HeaderAt(m, h, v[h]) { assert h in u && HeaderAt(m, h, u[h]); }
  }

  datatype Outcome = Refused | Released | NullWrite

  /** The pointer is held, and its back word leads to its header. */
  ghost predicate Held(grants: map<nat, Grant>, ptr: nat) {
    exists h :: h in grants && grants[h].ptr == ptr && ptr - h <= MAX_BACK
  }

  ghost predicate LastAfterFree(v: Blocks, h: nat) {
    h in v && v[h].next == 0 && v[h].prev in v && v[h].prev != 0 && v[v[h].prev].free
  }

  ghost predicate FreedAs(v: Blocks, w: Blocks, h: nat) {
    Linked(v) && Coalesced(v) && h in v && !v[h].free && w == Freed(v, h)
  }

  /** What happens to the headers alone leaves all grants alone. */
  lemma HeadersOnly(v: Blocks, m: Memory, m': Memory, grants: map<nat, Grant>)
    requires Linked(v) && GrantsFit(v, m, grants) && Elsewhere(m, m', v.Keys)
    ensures Kept(m, m', grants)
  {
    forall h, a: nat | h in grants && grants[h].ptr <= a + BACK_SIZE && a < grants[h].ptr + grants[h].n
      ensures Byte(m', a) == Byte(m, a)
    {
      assert GrantAt(v, m, h, grants[h]);
      ByteOff(v, h, a);
    }
  }

  /** A grant stays one when its block keeps its size and its bytes are kept. */
  lemma GrantStays(v: Blocks, w: Blocks, m: Memory, m': Memory, grants: map<nat, Grant>, k: nat)
    requires k in grants && GrantAt(v, m, k, grants[k]) && Kept(m, m', grants)
    requires k in w && w[k].size == v[k].size
    ensures GrantAt(w, m', k, grants[k])
  {
    var at := grants[k].ptr - BACK_SIZE;
    assert Byte(m', at) == Byte(m, at) && Byte(m', at + 1) == Byte(m, at + 1);
  }

  lemma GrantsShrink(v: Blocks, m: Memory, m': Memory, grants: map<nat, Grant>, h: nat)
    requires Linked(v) && Coalesced(v) && h in grants && GrantsFit(v, m, grants) && Elsewhere(m, m', v.Keys)
    ensures h in v && GrantsFit(Freed(v, h), m', grants - {h}) && Kept(m, m', grants - {h})
  {
    var w := Freed(v, h);
    FreedKeeps(v, h);
    HeadersOnly(v, m, m', grants);
    forall k | k in grants - {h} ensures GrantAt(w, m', k, grants[k]) {
      assert GrantAt(v, m, k, grants[k]);
      GrantStays(v, w, m, m', grants, k);
    }
    forall k ensures k in grants - {h} <==> k in w && !w[k].free {
      assert k in grants <==> k in v && !v[k].free;
    }
  }

  /** A byte written into a grant changes no header, no back word and no other grant. */
  lemma WriteKeeps(v: Blocks, m: Memory, grants: map<nat, Grant>, h: nat, i: nat, value: bv8)
    requires Linked(v) && Stored(m, v) && GrantsFit(v, m, grants) && h in grants && i < grants[h].n
    ensures Stored(StoreByte(m, grants[h].ptr + i, Data(value)), v)
    ensures GrantsFit(v, StoreByte(m, grants[h].ptr + i, Data(value)), grants)
  {
    assert GrantAt(v, m, h, grants[h]);
    ByteOff(v, h, grants[h].ptr + i);
    ByteKeepsHeaders(m, v, grants[h].ptr + i, Data(value));
    forall k | k in grants ensures GrantAt(v, StoreByte(m, grants[h].ptr + i, Data(value)), k, grants[k]) {
      assert GrantAt(v, m, k, grants[k]);
      if k != h { GrantsApart(v, m, grants, k, h); }
    }
  }

  /** The size a request is rounded up from, and to. */
  function Rounded(n: nat): nat {
    if n < MIN_PAYLOAD then MIN_PAYLOAD else n
  }

  function Request(n: nat, alignment: nat): nat
    requires PowerOfTwo(alignment)
  {
    AlignUp(Rounded(n), alignment)
  }

  ghost predicate GrantedAs(v: Blocks, w: Blocks, h: nat, off: nat) {
    && Linked(v) && Coalesced(v) && h in v && v[h].free && HEADER_SIZE + MIN_PAYLOAD <= off <= HEADER_SIZE + v[h].size
    && w == Granted(v, h, off)
  }

  /** A request for `n` bytes was placed at `ptr`, in the block at `h`. */
  ghost predicate Placed(v: Blocks, g: map<nat, Grant>, w: Blocks, g': map<nat, Grant>, h: nat, ptr: nat, n: nat,
        alignment: nat)
    requires PowerOfTwo(alignment)
  {
    && FirstFit(v, h, n, alignment) && ptr == PayloadAt(h, alignment) && h <= ptr + n
    && GrantedAs(v, w, h, ptr + n - h)
    && g' == g[h := Grant(ptr, n, alignment)]
  }

  /** No free block can hold the request. */
  ghost predicate NoPlace(v: Blocks, n: nat, alignment: nat)
    requires PowerOfTwo(alignment)
  {
    forall h | h in v :: !Fits(v, h, n, alignment)
  }

  lemma GrantFits(v: Blocks, h: nat, n: nat, alignment: nat)
    requires Linked(v) && PowerOfTwo(alignment) && alignment < 0x1_0000_0000 && Fits(v, h, n, alignment)
    ensures h + HEADER_SIZE + BACK_SIZE <= PayloadAt(h, alignment) && PayloadAt(h, alignment) + n <= EndOf(v, h)
    ensures Multiple(PayloadAt(h, alignment), alignment)
  {
    assert LinkedAt(v, h);
    PayloadIs(h, alignment);
  }

  /** The block at `h` is large enough to be cut near its start. */
  ghost predicate Roomy(v: Blocks, h: nat)
    requires h in v
  {
    v[h].size >= 2 * (HEADER_SIZE + MIN_PAYLOAD) && (v[h].next != 0 ==> v[h].next in v)
  }

  /** A request so large that rounding wraps becomes one for no bytes. It is placed in the first free
      block, and where that block is cut, the pointer granted is the address of the next header: no
      byte belongs to the caller, and the block left is below the smallest size. */
  lemma OversizedGrant(v: Blocks, h: nat, n: nat, alignment: nat)
    requires Linked(v) && PowerOfTwo(alignment) && alignment <= 16 && n < WORD && Rounded(n) + alignment > WORD
    ensures Request(n, alignment) == 0
    ensures FirstFit(v, h, 0, alignment) <==>
      h in v && v[h].free && forall k {:trigger v[k]} | k in v && k < h :: !v[k].free
    ensures FirstFit(v, h, 0, alignment) && Roomy(v, h) ==>
      var w := Split(v, h, PayloadAt(h, alignment) - h);
      PayloadAt(h, alignment) in w && EndOf(w, h) == PayloadAt(h, alignment) && w[h].size < MIN_PAYLOAD && !Linked(w)
  {
    NoWrapUpTo16(v, alignment);
    AboveStart(v);
    forall k | k in v ensures k <= HEAP_END { assert LinkedAt(v, k); }
    assert Plus(n, alignment - 1) < alignment;
    MaskedSmall(Plus(n, alignment - 1), alignment);
    if h in v { PayloadIs(h, alignment); }
    if FirstFit(v, h, 0, alignment) && v[h].size >= 2 * (HEADER_SIZE + MIN_PAYLOAD) {
      NextBlock(v, h);
      var w := Split(v, h, PayloadAt(h, alignment) - h);
      assert !LinkedAt(w, h);
    }
  }

  lemma {:induction false} MaskedSmall(x: nat, alignment: nat)
    requires PowerOfTwo(alignment) && x < alignment
    ensures Masked(x, alignment) == 0
  {
    if alignment > 1 { MaskedSmall(x / 2, alignment / 2); }
  }

  /** A new grant and its back word leave the other grants and their back words alone. */
  lemma GrantsGrow(v: Blocks, w: Blocks, m: Memory, m': Memory, grants: map<nat, Grant>, h: nat, g: Grant)
    requires Linked(v) && Coalesced(v) && h in v && v[h].free && GrantsFit(v, m, grants)
    requires h + HEADER_SIZE + BACK_SIZE <= g.ptr && g.ptr + g.n <= EndOf(v, h)
    requires g.n >= MIN_PAYLOAD && g.alignment > 0 && g.ptr % g.alignment == 0
    requires w == Granted(v, h, g.ptr + g.n - h)
    requires Elsewhere(StoreWord(m, g.ptr - BACK_SIZE, BackWord(h, g.ptr)), m', w.Keys)
    ensures GrantsFit(w, m', grants[h := g]) && Kept(m, m', grants)
  {
    GrantedKeeps(v, h, g.ptr + g.n - h);
    GrownKept(v, w, m, m', grants, h, g);
    NewWord(w, m, m', h, g);
    forall k | k in grants && k != h ensures GrantAt(w, m', k, grants[k]) {
      assert GrantAt(v, m, k, grants[k]);
      GrantStays(v, w, m, m', grants, k);
    }
    GrantKeysGrow(v, w, m, grants, h, g);
  }

  lemma GrownKept(v: Blocks, w: Blocks, m: Memory, m': Memory, grants: map<nat, Grant>, h: nat, g: Grant)
    requires Linked(v) && Linked(w) && SameTaken(v, w, h) && GrantsFit(v, m, grants) && h in v && h !in grants
    requires h + HEADER_SIZE + BACK_SIZE <= g.ptr <= EndOf(v, h)
    requires Elsewhere(StoreWord(m, g.ptr - BACK_SIZE, BackWord(h, g.ptr)), m', w.Keys)
    ensures Kept(m, m', grants)
  {
    forall k, a: nat | k in grants && grants[k].ptr <= a + BACK_SIZE && a < grants[k].ptr + grants[k].n
      ensures Byte(m', a) == Byte(m, a)
    {
      assert GrantAt(v, m, k, grants[k]);
      ByteOff(w, k, a);
      GrantsApart(v, m, grants, k, h);
    }
  }

  lemma NewWord(w: Blocks, m: Memory, m': Memory, h: nat, g: Grant)
    requires Linked(w) && h in w && h + HEADER_SIZE + BACK_SIZE <= g.ptr <= EndOf(w, h)
    requires Elsewhere(StoreWord(m, g.ptr - BACK_SIZE, BackWord(h, g.ptr)), m', w.Keys)
    ensures WordAt(m', g.ptr - BACK_SIZE, BackWord(h, g.ptr))
  {
    ByteOff(w, h, g.ptr - BACK_SIZE);
    ByteOff(w, h, g.ptr - 1);
    WordKept(StoreWord(m, g.ptr - BACK_SIZE, BackWord(h, g.ptr)), m', w.Keys, g.ptr - BACK_SIZE, BackWord(h, g.ptr));
  }

  lemma GrantKeysGrow(v: Blocks, w: Blocks, m: Memory, grants: map<nat, Grant>, h: nat, g: Grant)
    requires SameTaken(v, w, h) && GrantsFit(v, m, grants) && h in w && !w[h].free
    ensures forall k :: k in grants[h := g] <==> k in w && !w[k].free
  {
    forall k ensures k in grants[h := g] <==> k in w && !w[k].free {
      assert k in grants <==> k in v && !v[k].free;
    }
  }

  lemma PassBlock(v: Blocks, h: nat)
    requires Linked(v) && h in v
    ensures v[h].next != 0 ==> v[h].next in v && h < v[h].next <= HEAP_END
    ensures forall k | k in v && h < k :: v[h].next != 0 && v[h].next <= k
  {
    NextBlock(v, h);
    assert LinkedAt(v, h);
    forall k | k in v && h < k ensures v[h].next != 0 && v[h].next <= k {
      Apart(v, h, k);
      assert LinkedAt(v, k);
    }
  }
}
