/** Heaps that a client can reach (Kernel/Source/Memory/Krnlheap.c), and what goes wrong there. */
module HeapCases {
  import opened HeapBlocks
  import opened HeapMemory
  import opened Heap
  import opened HeapRuns

  /** A request for `n` bytes at alignment 1 goes to the block at `at` and leads to `next`. */
  ghost predicate Takes(v: Blocks, n: nat, at: nat, next: Blocks)
    requires Linked(v)
  {
    && MIN_PAYLOAD <= n && at in v && v[at].free && HEAP_START <= at <= HEAP_END && n + 2 <= v[at].size < WORD
    && (forall k {:trigger v[k]} | k in v && k < at :: !v[k].free)
    && Granted(v, at, 27 + n) == next
  }

  ghost predicate Gives(v: Blocks, h: nat, next: Blocks)
    requires Linked(v)
  {
    h in v && !LastAfterFree(v, h) && Freed(v, h) == next
  }

  lemma PayloadOne(h: nat)
    requires HEAP_START <= h <= HEAP_END
    ensures PayloadAt(h, 1) == h + 27
  {
  }

  lemma RequestOne(n: nat)
    requires MIN_PAYLOAD <= n < WORD
    ensures Request(n, 1) == n
  {
  }

  lemma FirstTaker(v: Blocks, n: nat, at: nat, next: Blocks)
    requires Linked(v) && Takes(v, n, at, next)
    ensures FirstFit(v, at, n, 1) && !NoPlace(v, n, 1)
    ensures forall k :: FirstFit(v, k, n, 1) ==> k == at
  {
    PayloadOne(at);
    assert Fits(v, at, n, 1);
  }

  lemma PlacedIn(v: Blocks, g: map<nat, Grant>, w: Blocks, g': map<nat, Grant>, h: nat, ptr: nat, n: nat, at: nat,
        next: Blocks)
    requires Placed(v, g, w, g', h, ptr, n, 1) && Linked(v) && Takes(v, n, at, next)
    requires forall k :: FirstFit(v, k, n, 1) ==> k == at
    ensures h == at && ptr == at + 27 && w == next
  {
    PayloadOne(at);
  }

  method TakeAt(heap: KernelHeap, n: nat, ghost at: nat, ghost next: Blocks) returns (ptr: nat)
    requires heap.Valid() && Takes(heap.blocks, n, at, next)
    modifies heap
    ensures heap.Valid() && heap.blocks == next && heap.grants == old(heap.grants)[at := Grant(ptr, n, 1)]
    ensures ptr == at + 27
  {
    ghost var v, g := heap.blocks, heap.grants;
    NoWrapUpTo16(v, 1);
    RequestOne(n);
    FirstTaker(v, n, at, next);
    ghost var h;
    ptr, h := heap.Acquire(n, 1);
    PlacedIn(v, g, heap.blocks, heap.grants, h, ptr, n, at, next);
  }

  method GiveAt(heap: KernelHeap, ptr: nat, ghost h: nat, ghost next: Blocks)
    requires heap.Valid() && h in heap.grants && heap.grants[h].ptr == ptr && ptr - h <= MAX_BACK
    requires Gives(heap.blocks, h, next)
    modifies heap
    ensures heap.Valid() && heap.blocks == next && heap.grants == old(heap.grants) - {h}
  {
    ghost var v, m, g := heap.blocks, heap.memory, heap.grants;
    GrantInHeap(v, m, g, h);
    var outcome, h' := heap.Relinquish(ptr);
    HeldOnce(v, m, g, h', h);
  }

  function Tail(at: nat, prev: nat): Header {
    Header(prev, 0, if at + HEADER_SIZE <= HEAP_END then HEAP_END - at - HEADER_SIZE else 0, true)
  }

  // ---- A back word that does not lead back ----

  /** On a fresh heap a request of alignment 65536 is granted that far from its header. Its back word is
      zero, so what a release would take for the header is the first byte of the caller's own memory. */
  method FarGrant() returns (heap: KernelHeap, ptr: nat)
    ensures heap.Valid() && ptr == HEAP_START + 0x1_0000 && HEAP_START in heap.grants
    ensures heap.grants == map[HEAP_START := Grant(ptr, 0x1_0000, 0x1_0000)]
    ensures WordAt(heap.memory, ptr - BACK_SIZE, 0) && ptr !in heap.blocks
  {
    FarPayload();
    heap := new KernelHeap.Init(map[]);
    ghost var h;
    ptr, h := heap.Acquire(32, 0x1_0000);
    FarWord(heap.blocks, heap.memory, heap.grants, ptr);
  }

  lemma FarWord(v: Blocks, m: Memory, grants: map<nat, Grant>, ptr: nat)
    requires Linked(v) && GrantsFit(v, m, grants) && ptr == HEAP_START + 0x1_0000
    requires HEAP_START in grants && grants[HEAP_START] == Grant(ptr, 0x1_0000, 0x1_0000)
    ensures WordAt(m, ptr - BACK_SIZE, 0) && ptr !in v
  {
    assert GrantAt(v, m, HEAP_START, grants[HEAP_START]);
    if ptr in v { Apart(v, HEAP_START, ptr); }
  }

  lemma FarPayload()
    ensures PowerOfTwo(0x1_0000) && PayloadAt(HEAP_START, 0x1_0000) == HEAP_START + 0x1_0000
    ensures Request(32, 0x1_0000) == 0x1_0000 && NoWrap(Whole(), 0x1_0000)
    ensures forall h :: FirstFit(Whole(), h, 0x1_0000, 0x1_0000) ==> h == HEAP_START
    ensures !NoPlace(Whole(), 0x1_0000, 0x1_0000)
  {
    FarAligned();
    FarRequest();
    assert Fits(Whole(), HEAP_START, 0x1_0000, 0x1_0000);
  }

  lemma FarAligned()
    ensures PowerOfTwo(0x1_0000) && PayloadAt(HEAP_START, 0x1_0000) == HEAP_START + 0x1_0000
  {
    SmallPowers();
    PayloadIs(HEAP_START, 0x1_0000);
    MultipleIs(PayloadAt(HEAP_START, 0x1_0000), 0x1_0000);
  }

  lemma FarRequest()
    ensures PowerOfTwo(0x1_0000) && Request(32, 0x1_0000) == 0x1_0000
  {
    SmallPowers();
    MultipleIs(AlignUp(32, 0x1_0000), 0x1_0000);
  }

  // ---- The null write ----

  const SECOND: nat := HEAP_START + 59
  const REST: nat := HEAP_END - SECOND - HEADER_SIZE - BACK_SIZE

  /** The heaps after 32 bytes were taken, then all the rest, then the first piece was given back. */
  lemma NullChain() returns (one: Blocks, two: Blocks, freed: Blocks)
    ensures Linked(Whole()) && Takes(Whole(), 32, HEAP_START, one)
    ensures Linked(one) ==> Takes(one, REST, SECOND, two)
    ensures Linked(two) ==> Gives(two, HEAP_START, freed)
    ensures LastAfterFree(freed, SECOND)
  {
    WholeLinked();
    one := map[HEAP_START := Header(0, SECOND, 34, false), SECOND := Tail(SECOND, HEAP_START)];
    two := one[SECOND := Tail(SECOND, HEAP_START).(free := false)];
    freed := two[HEAP_START := Header(0, SECOND, 34, true)];
  }

  /** The state in which the null write happens is reachable: take 32 bytes, take the rest, give the first
      piece back. What is left is the last block, behind a free one. */
  method NullWriteAhead() returns (heap: KernelHeap, second: nat)
    ensures fresh(heap) && heap.Valid() && SECOND in heap.grants && heap.grants[SECOND].ptr == second == SECOND + 27
    ensures LastAfterFree(heap.blocks, SECOND)
  {
    ghost var one, two, freed := NullChain();
    heap := new KernelHeap.Init(map[]);
    var first := TakeAt(heap, 32, HEAP_START, one);
    second := TakeAt(heap, REST, SECOND, two);
    GiveAt(heap, first, HEAP_START, freed);
  }

  /** And it happens when that piece is given back, too. */
  method NullWriteHappens() returns (outcome: Outcome)
    ensures outcome == NullWrite
  {
    var heap, second := NullWriteAhead();
    ghost var v, m, g, h := heap.blocks, heap.memory, heap.grants, 0;
    GrantInHeap(v, m, g, SECOND);
    outcome, h := heap.Relinquish(second);
    HeldOnce(v, m, g, h, SECOND);
  }

  // ---- The fit test wraps ----

  function One(): Blocks {
    map[HEAP_START := Header(0, HEAP_START + 70, 45, false), HEAP_START + 70 := Tail(HEAP_START + 70, HEAP_START)]
  }

  function Two(): Blocks {
    map[
      HEAP_START := Header(0, HEAP_START + 70, 45, false),
      HEAP_START + 70 := Header(HEAP_START, HEAP_START + 191, 96, false),
      HEAP_START + 191 := Tail(HEAP_START + 191, HEAP_START + 70)
    ]
  }

  /** The heap after 43 bytes, then 94, then 32 were taken at alignment 1. */
  function Three(): Blocks {
    map[
      HEAP_START := Header(0, HEAP_START + 70, 45, false),
      HEAP_START + 70 := Header(HEAP_START, HEAP_START + 191, 96, false),
      HEAP_START + 191 := Header(HEAP_START + 70, HEAP_START + 250, 34, false),
      HEAP_START + 250 := Tail(HEAP_START + 250, HEAP_START + 191)
    ]
  }

  /** The second piece was given back ... */
  function Holed(): Blocks {
    Three()[HEAP_START + 70 := Header(HEAP_START, HEAP_START + 191, 96, true)]
  }

  /** ... and 37 bytes were taken in its place. */
  function Narrow(): Blocks {
    map[
      HEAP_START := Header(0, HEAP_START + 70, 45, false),
      HEAP_START + 70 := Header(HEAP_START, HEAP_START + 134, 39, false),
      HEAP_START + 134 := Header(HEAP_START + 70, HEAP_START + 191, 32, true),
      HEAP_START + 191 := Header(HEAP_START + 134, HEAP_START + 250, 34, false),
      HEAP_START + 250 := Tail(HEAP_START + 250, HEAP_START + 191)
    ]
  }

  lemma StepOne()
    ensures Linked(Whole()) && Takes(Whole(), 43, HEAP_START, One())
  {
    WholeLinked();
  }

  lemma StepTwo()
    requires Linked(One())
    ensures Takes(One(), 94, HEAP_START + 70, Two())
  {
  }

  lemma StepThree()
    requires Linked(Two())
    ensures Takes(Two(), 32, HEAP_START + 191, Three())
  {
  }

  lemma StepFour()
    requires Linked(Three())
    ensures Gives(Three(), HEAP_START + 70, Holed())
  {
  }

  lemma StepFive()
    requires Linked(Holed())
    ensures Takes(Holed(), 37, HEAP_START + 70, Narrow())
  {
    CutInHole();
  }

  lemma CutInHole()
    requires Linked(Holed())
    ensures Granted(Holed(), HEAP_START + 70, 64) == Narrow()
  {
    var u := Split(Holed(), HEAP_START + 70, 64);
    assert u.Keys == Narrow().Keys;
    assert u[HEAP_START + 134] == Narrow()[HEAP_START + 134] && u[HEAP_START + 191] == Narrow()[HEAP_START + 191];
  }

  /** In the narrow heap the subtraction for a request of alignment 32 wraps. */
  lemma NarrowWraps()
    ensures PowerOfTwo(32) && !NoWrap(Narrow(), 32)
  {
    assert PowerOfTwo(2) && PowerOfTwo(4) && PowerOfTwo(8) && PowerOfTwo(16) && PowerOfTwo(32);
    var h := HEAP_START + 134;
    MultipleIs(HEAP_START + 160, 32);
    WastesMost(h, HEAP_START + 160, 32);
    assert h in Narrow() && Narrow()[h].free;
  }

  lemma WrapChain() returns (one: Blocks, two: Blocks, three: Blocks, holed: Blocks, narrow: Blocks)
    ensures Linked(Whole()) && Takes(Whole(), 43, HEAP_START, one)
    ensures Linked(one) ==> Takes(one, 94, HEAP_START + 70, two)
    ensures Linked(two) ==> Takes(two, 32, HEAP_START + 191, three)
    ensures Linked(three) ==> Gives(three, HEAP_START + 70, holed)
    ensures Linked(holed) ==> Takes(holed, 37, HEAP_START + 70, narrow)
    ensures PowerOfTwo(32) && !NoWrap(narrow, 32)
  {
    one, two, three, holed, narrow := One(), Two(), Three(), Holed(), Narrow();
    StepOne();
    if Linked(one) { StepTwo(); }
    if Linked(two) { StepThree(); }
    if Linked(three) { StepFour(); }
    if Linked(holed) { StepFive(); }
    NarrowWraps();
  }

  /** A client can bring the heap into a state in which a request of alignment 32 wraps: it takes 43,
      94 and 32 bytes, gives the second pointer back and takes 37. */
  method WrapReachable() returns (heap: KernelHeap)
    ensures heap.Valid() && PowerOfTwo(32) && !NoWrap(heap.blocks, 32)
  {
    ghost var one, two, three, holed, narrow := WrapChain();
    heap := new KernelHeap.Init(map[]);
    var first := TakeAt(heap, 43, HEAP_START, one);
    var second := TakeAt(heap, 94, HEAP_START + 70, two);
    var third := TakeAt(heap, 32, HEAP_START + 191, three);
    GiveAt(heap, second, HEAP_START + 70, holed);
    var fourth := TakeAt(heap, 37, HEAP_START + 70, narrow);
  }
}
