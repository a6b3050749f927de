/** Whole runs of the kernel heap (Kernel/Source/Memory/Krnlheap.c). */
module HeapRuns {
  import opened Machine
  import opened HeapBlocks
  import opened HeapMemory
  import opened Heap

  /** A pointer is held through one header only. */
  lemma HeldOnce(v: Blocks, m: Memory, grants: map<nat, Grant>, h: nat, k: nat)
    requires Linked(v) && GrantsFit(v, m, grants) && h in grants && k in grants && grants[h].ptr == grants[k].ptr
    ensures h == k
  {
    assert GrantAt(v, m, h, grants[h]) && GrantAt(v, m, k, grants[k]);
    if h != k { GrantsApart(v, m, grants, h, k); }
  }

  /** When every pointer has been released, in whatever order, the heap is one free block again. */
  lemma AllReturned(v: Blocks, m: Memory, grants: map<nat, Grant>)
    requires Linked(v) && Coalesced(v) && GrantsFit(v, m, grants) && grants == map[]
    ensures v == Whole()
  {
    forall h | h in v ensures v[h].free {
      assert h in grants <==> h in v && !v[h].free;
    }
    AllFree(v);
  }

  /** Acquiring and releasing at once leaves blocks and grants as they were. */
  lemma AcquireThenRelease(v: Blocks, g: map<nat, Grant>, w: Blocks, g': map<nat, Grant>, h: nat, ptr: nat, n: nat,
        alignment: nat)
    requires PowerOfTwo(alignment) && Placed(v, g, w, g', h, ptr, n, alignment) && h !in g
    ensures Linked(w) && h in w && Freed(w, h) == v && g' - {h} == g && !LastAfterFree(w, h)
  {
    GrantUndone(v, w, h, ptr + n - h);
    Undone(g, h, Grant(ptr, n, alignment));
  }

  lemma GrantUndone(v: Blocks, w: Blocks, h: nat, off: nat)
    requires GrantedAs(v, w, h, off)
    ensures Linked(w) && h in w && Freed(w, h) == v && !LastAfterFree(w, h)
  {
    ReleaseRestores(v, h, off);
    PrevStaysTaken(v, h, off);
  }

  lemma Undone(g: map<nat, Grant>, h: nat, x: Grant)
    requires h !in g
    ensures g[h := x] - {h} == g
  {
  }

  lemma PrevStaysTaken(v: Blocks, h: nat, off: nat)
    requires Linked(v) && Coalesced(v) && h in v && v[h].free
    requires HEADER_SIZE + MIN_PAYLOAD <= off <= HEADER_SIZE + v[h].size
    ensures h in Granted(v, h, off) && !LastAfterFree(Granted(v, h, off), h)
  {
    NextBlock(v, h);
    SplitPrevTaken(v, h, off);
  }

  /** A client takes memory, gives back the i-th piece it owns, or writes a byte of that piece. */
  datatype Step = Take(n: nat, alignment: nat) | Give(i: nat) | Store(i: nat, off: nat, value: bv8)

  predicate Admissible(step: Step) {
    step.Take? ==> step.n < WORD && step.alignment <= 16 && Rounded(step.n) + step.alignment <= WORD
  }

  /** A piece of memory that the client owns, and what it last wrote into it, by offset. */
  datatype Claim = Claim(ptr: nat, n: nat, bytes: map<nat, bv8>)

  function Without<T>(s: seq<T>, i: nat): seq<T>
    requires i < |s|
  {
    s[..i] + s[i + 1..]
  }

  /** What the client owns after a step; `ptr` is what a Take returned. */
  function Next(owned: seq<Claim>, step: Step, ptr: nat): seq<Claim> {
    match step
    case Take(n, _) => if ptr == 0 then owned else owned + [Claim(ptr, n, map[])]
    case Give(i) => if i < |owned| then Without(owned, i) else owned
    case Store(i, off, value) =>
      if i < |owned| && off < owned[i].n then owned[i := Written(owned[i], off, value)] else owned
  }

  function Written(c: Claim, off: nat, value: bv8): Claim {
    c.(bytes := c.bytes[off := value])
  }

  /** What the client owns after the first `k` steps, by the pointers it was given. */
  function After(steps: seq<Step>, given: seq<nat>, k: nat): seq<Claim>
    requires k <= |steps| && k <= |given|
  {
    if k == 0 then [] else Next(After(steps, given, k - 1), steps[k - 1], given[k - 1])
  }

  lemma {:induction false} AfterGrows(steps: seq<Step>, given: seq<nat>, ptr: nat, k: nat)
    requires k <= |steps| && k <= |given|
    ensures After(steps, given + [ptr], k) == After(steps, given, k)
  {
    if k > 0 { AfterGrows(steps, given, ptr, k - 1); }
  }

  /** The claim is what was granted at `h`, and memory still holds every byte written into it. */
  ghost predicate ClaimAt(m: Memory, grants: map<nat, Grant>, h: nat, c: Claim) {
    && h in grants && grants[h].ptr == c.ptr && c.n <= grants[h].n && c.ptr - h <= MAX_BACK
    && forall off {:trigger off in c.bytes} | off in c.bytes ::
         off < c.n && Byte(m, c.ptr + off) == Data(c.bytes[off])
  }

  /** The client's claims are exactly the grants; `headers` names their blocks. */
  ghost predicate Owns(m: Memory, grants: map<nat, Grant>, owned: seq<Claim>, headers: seq<nat>) {
    && |owned| == |headers| && Distinct(headers)
    && (forall i {:trigger headers[i]} {:trigger owned[i]} | 0 <= i < |headers| ::
          ClaimAt(m, grants, headers[i], owned[i]))
    && (forall h {:trigger h in grants} | h in grants :: h in headers)
  }

  lemma ClaimKept(m: Memory, m': Memory, grants: map<nat, Grant>, kept: map<nat, Grant>, h: nat, c: Claim)
    requires ClaimAt(m, grants, h, c) && h in kept && kept[h] == grants[h] && Kept(m, m', kept)
    ensures ClaimAt(m', kept, h, c)
  {
    forall off | off in c.bytes ensures Byte(m', c.ptr + off) == Data(c.bytes[off]) {
      assert kept[h].ptr <= c.ptr + off + BACK_SIZE;
    }
  }

  lemma OwnsMore(m: Memory, m': Memory, grants: map<nat, Grant>, owned: seq<Claim>, headers: seq<nat>, h: nat, g: Grant,
        n: nat)
    requires Owns(m, grants, owned, headers) && h !in grants && Kept(m, m', grants) && n <= g.n
    requires g.ptr - h <= MAX_BACK
    ensures Owns(m', grants[h := g], owned + [Claim(g.ptr, n, map[])], headers + [h])
  {
    forall i | 0 <= i < |headers| ensures ClaimAt(m', grants[h := g], headers[i], owned[i]) {
      ClaimKept(m, m', grants, grants, headers[i], owned[i]);
    }
  }

  lemma OwnsSame(m: Memory, m': Memory, grants: map<nat, Grant>, owned: seq<Claim>, headers: seq<nat>)
    requires Owns(m, grants, owned, headers) && Kept(m, m', grants)
    ensures Owns(m', grants, owned, headers)
  {
    forall i | 0 <= i < |headers| ensures ClaimAt(m', grants, headers[i], owned[i]) {
      ClaimKept(m, m', grants, grants, headers[i], owned[i]);
    }
  }

  lemma OwnsLess(m: Memory, m': Memory, grants: map<nat, Grant>, owned: seq<Claim>, headers: seq<nat>, i: nat)
    requires Owns(m, grants, owned, headers) && i < |headers| && Kept(m, m', grants - {headers[i]})
    ensures Owns(m', grants - {headers[i]}, Without(owned, i), Without(headers, i))
  {
    var hs, os, kept := Without(headers, i), Without(owned, i), grants - {headers[i]};
    forall k | 0 <= k < |hs| ensures ClaimAt(m', kept, hs[k], os[k]) {
      var k0 := if k < i then k else k + 1;
      assert headers[k0] != headers[i];
      ClaimKept(m, m', grants, kept, headers[k0], owned[k0]);
    }
    LeftOver(grants, headers, i);
  }

  lemma LeftOver(grants: map<nat, Grant>, headers: seq<nat>, i: nat)
    requires i < |headers| && forall h {:trigger h in grants} | h in grants :: h in headers
    ensures forall h {:trigger h in grants} | h in grants && h != headers[i] :: h in Without(headers, i)
    ensures Distinct(headers) ==> Distinct(Without(headers, i))
  {
    var hs := Without(headers, i);
    forall h | h in grants && h != headers[i] ensures h in hs {
      var k :| 0 <= k < |headers| && headers[k] == h;
      assert hs[if k < i then k else k - 1] == h;
    }
  }

  lemma OwnsWritten(v: Blocks, m: Memory, grants: map<nat, Grant>, owned: seq<Claim>, headers: seq<nat>, i: nat,
        off: nat, value: bv8)
    requires Linked(v) && GrantsFit(v, m, grants) && Owns(m, grants, owned, headers)
    requires i < |headers| && off < owned[i].n
    ensures Owns(StoreByte(m, owned[i].ptr + off, Data(value)), grants, owned[i := Written(owned[i], off, value)],
                 headers)
  {
    var m', os := StoreByte(m, owned[i].ptr + off, Data(value)), owned[i := Written(owned[i], off, value)];
    forall k | 0 <= k < |headers| ensures ClaimAt(m', grants, headers[k], os[k]) {
      assert ClaimAt(m, grants, headers[k], owned[k]) && ClaimAt(m, grants, headers[i], owned[i]);
      if k != i {
        assert headers[k] != headers[i];
        OtherClaim(v, m, grants, headers[i], headers[k], off, value, owned[k]);
      }
    }
  }

  lemma OtherClaim(v: Blocks, m: Memory, grants: map<nat, Grant>, h: nat, k: nat, off: nat, value: bv8, c: Claim)
    requires Linked(v) && GrantsFit(v, m, grants) && h in grants && off < grants[h].n && h != k
    requires ClaimAt(m, grants, k, c)
    ensures ClaimAt(StoreByte(m, grants[h].ptr + off, Data(value)), grants, k, c)
  {
    assert GrantAt(v, m, h, grants[h]) && GrantAt(v, m, k, grants[k]);
    GrantsApart(v, m, grants, k, h);
  }

  // ---- How much a run takes ----

  /** A Take that asks for something, at an alignment that is a power of two. */
  predicate Sensible(step: Step) {
    step.Take? && step.n > 0 && PowerOfTwo(step.alignment)
  }

  /** The most that a step can take from the heap: the rounded request, a header, and the padding. */
  function Cost(step: Step): nat {
    if Sensible(step) then Request(step.n, step.alignment) + HEADER_SIZE + step.alignment + 1 else 0
  }

  /** The cost of the first `k` steps. */
  function Volume(steps: seq<Step>, k: nat): nat
    requires k <= |steps|
  {
    if k == 0 then 0 else Volume(steps, k - 1) + Cost(steps[k - 1])
  }

  /** What can be taken before the last block of the heap has to be touched as a whole. */
  const ROOM: nat := HEAP_END - HEAP_START - HEADER_SIZE - MIN_PAYLOAD

  /** While the last block is free and low enough, a request fits there, hence somewhere. */
  lemma TailFits(v: Blocks, bound: nat, step: Step)
    requires Linked(v) && TailBelow(v, bound) && Sensible(step) && Admissible(step)
    requires bound + Cost(step) <= HEAP_START + ROOM
    ensures !NoPlace(v, Request(step.n, step.alignment), step.alignment)
  {
    var t := LastBlock(v);
    assert LinkedAt(v, t);
    PayloadIs(t, step.alignment);
    assert Fits(v, t, Request(step.n, step.alignment), step.alignment);
  }

  lemma NearPayload(h: nat, alignment: nat)
    requires HEAP_START <= h <= HEAP_END && PowerOfTwo(alignment) && alignment <= 16
    ensures PayloadAt(h, alignment) - h <= MAX_BACK && PayloadAt(h, alignment) % alignment == 0
  {
    PayloadIs(h, alignment);
    MultipleIs(PayloadAt(h, alignment), alignment);
  }

  // ---- Steps ----

  /** The headers in the list, and those of the client's pieces, in the order of its claims. */
  datatype State = State(blocks: Blocks, headers: seq<nat>)

  /** A request is granted in the block at `h`, the first that can hold it. */
  ghost predicate TakesAt(s: State, n: nat, alignment: nat, h: nat, ptr: nat, s': State)
    requires PowerOfTwo(alignment)
  {
    && FirstFit(s.blocks, h, n, alignment) && ptr == PayloadAt(h, alignment) && h <= ptr + n
    && GrantedAs(s.blocks, s'.blocks, h, ptr + n - h) && s'.headers == s.headers + [h]
  }

  /** The step leads from one state to another, and gives `ptr`. A Take is refused exactly when it is
      senseless or nothing fits. */
  ghost predicate Moves(s: State, step: Step, ptr: nat, s': State) {
    match step
    case Take(n, alignment) =>
      if !Sensible(step) || NoPlace(s.blocks, Request(n, alignment), alignment) then ptr == 0 && s' == s
      else
        && ptr != 0 && |s'.headers| == |s.headers| + 1
        && TakesAt(s, Request(n, alignment), alignment, s'.headers[|s.headers|], ptr, s')
    case Give(i) =>
      if i < |s.headers| then
        && FreedAs(s.blocks, s'.blocks, s.headers[i]) && !LastAfterFree(s.blocks, s.headers[i])
        && s'.headers == Without(s.headers, i)
      else s' == s
    case Store(_, _, _) => s' == s
  }

  /** The step gives back the last block, behind a free one. */
  ghost predicate Crashes(s: State, step: Step) {
    && step.Give? && step.i < |s.headers| && LastAfterFree(s.blocks, s.headers[step.i])
    && !s.blocks[s.headers[step.i]].free
  }

  /** The heap is in the state, and the client's claims are its grants. */
  ghost predicate Serves(heap: KernelHeap, s: State, owned: seq<Claim>)
    reads heap
  {
    heap.Valid() && heap.blocks == s.blocks && Owns(heap.memory, heap.grants, owned, s.headers)
  }

  /** One step of the client. `ptr` is the pointer given, if it takes memory. */
  method Perform(heap: KernelHeap, step: Step, owned: seq<Claim>, ghost s: State)
    returns (ptr: nat, ghost s': State, crashed: bool)
    requires Serves(heap, s, owned) && Admissible(step)
    modifies heap
    ensures crashed <==> Crashes(s, step)
    ensures !crashed ==> Moves(s, step, ptr, s') && Serves(heap, s', Next(owned, step, ptr))
  {
    ptr, s', crashed := 0, s, false;
    match step {
      case Take(n, alignment) => ptr, s' := TakeMemory(heap, n, alignment, owned, s);
      case Give(i) =>
        if i < |owned| {
          s', crashed := GiveBack(heap, i, owned, s);
        }
      case Store(i, off, value) =>
        if i < |owned| && off < owned[i].n {
          StoreInto(heap, owned, s, i, off, value);
        }
    }
  }

  method StoreInto(heap: KernelHeap, owned: seq<Claim>, ghost s: State, i: nat, off: nat, value: bv8)
    requires Serves(heap, s, owned) && i < |owned| && off < owned[i].n
    modifies heap
    ensures Serves(heap, s, owned[i := Written(owned[i], off, value)])
  {
    assert ClaimAt(heap.memory, heap.grants, s.headers[i], owned[i]);
    OwnsWritten(heap.blocks, heap.memory, heap.grants, owned, s.headers, i, off, value);
    heap.Write(owned[i].ptr, off, value, s.headers[i]);
  }

  method TakeMemory(heap: KernelHeap, n: nat, alignment: nat, owned: seq<Claim>, ghost s: State)
    returns (ptr: nat, ghost s': State)
    requires Serves(heap, s, owned) && Admissible(Take(n, alignment))
    modifies heap
    ensures Moves(s, Take(n, alignment), ptr, s') && Serves(heap, s', Next(owned, Take(n, alignment), ptr))
  {
    if PowerOfTwo(alignment) { NoWrapUpTo16(heap.blocks, alignment); }
    ghost var g, m, h := heap.grants, heap.memory, 0;
    ptr, h := heap.Acquire(n, alignment);
    if ptr != 0 {
      TakenNear(s.blocks, h, alignment);
      OwnsMore(m, heap.memory, g, owned, s.headers, h, Grant(ptr, Request(n, alignment), alignment), n);
      s' := State(heap.blocks, s.headers + [h]);
    } else {
      OwnsSame(m, heap.memory, g, owned, s.headers);
      s' := s;
    }
  }

  lemma TakenNear(v: Blocks, h: nat, alignment: nat)
    requires Linked(v) && h in v && v[h].free && PowerOfTwo(alignment) && alignment <= 16
    ensures HEAP_START <= h <= HEAP_END && PayloadAt(h, alignment) - h <= MAX_BACK
    ensures PayloadAt(h, alignment) % alignment == 0
  {
    assert LinkedAt(v, h);
    NearPayload(h, alignment);
  }

  method GiveBack(heap: KernelHeap, i: nat, owned: seq<Claim>, ghost s: State)
    returns (ghost s': State, crashed: bool)
    requires Serves(heap, s, owned) && i < |owned|
    modifies heap
    ensures crashed <==> Crashes(s, Give(i))
    ensures !crashed ==> Moves(s, Give(i), 0, s') && Serves(heap, s', Without(owned, i))
  {
    ghost var v, m, g, h0 := heap.blocks, heap.memory, heap.grants, s.headers[i];
    assert ClaimAt(m, g, h0, owned[i]);
    GrantInHeap(v, m, g, h0);
    var outcome, h := heap.Relinquish(owned[i].ptr);
    HeldOnce(v, m, g, h, h0);
    crashed := outcome == NullWrite;
    s' := State(heap.blocks, Without(s.headers, i));
    if !crashed { OwnsLess(m, heap.memory, g, owned, s.headers, i); }
  }

  lemma GrantInHeap(v: Blocks, m: Memory, grants: map<nat, Grant>, h: nat)
    requires Linked(v) && GrantsFit(v, m, grants) && h in grants && grants[h].ptr - h <= MAX_BACK
    ensures HEAP_START <= grants[h].ptr < HEAP_END && Held(grants, grants[h].ptr) && h in v && !v[h].free
  {
    assert GrantAt(v, m, h, grants[h]);
    assert LinkedAt(v, h);
  }

  // ---- Runs ----

  /** The states of a run, before the first step and after each, and the pointers that the steps gave. */
  ghost predicate History(states: seq<State>, steps: seq<Step>, given: seq<nat>) {
    && |states| == |given| + 1 <= |steps| + 1 && states[0] == State(Whole(), [])
    && forall k {:trigger Performed(states, steps, given, k)} | 0 <= k < |given| :: Performed(states, steps, given, k)
  }

  ghost predicate Performed(states: seq<State>, steps: seq<Step>, given: seq<nat>, k: int) {
    0 <= k < |given| && k + 1 < |states| && k < |steps| && Moves(states[k], steps[k], given[k], states[k + 1])
  }

  lemma {:induction false} StaysLinked(states: seq<State>, steps: seq<Step>, given: seq<nat>, k: nat)
    requires History(states, steps, given) && k <= |given|
    ensures Linked(states[k].blocks) && Coalesced(states[k].blocks)
  {
    if k == 0 {
      WholeLinked();
    } else {
      StaysLinked(states, steps, given, k - 1);
      assert Performed(states, steps, given, k - 1);
      MoveLinked(states[k - 1], steps[k - 1], given[k - 1], states[k]);
    }
  }

  lemma MoveLinked(s: State, step: Step, ptr: nat, s': State)
    requires Linked(s.blocks) && Coalesced(s.blocks) && Moves(s, step, ptr, s')
    ensures Linked(s'.blocks) && Coalesced(s'.blocks)
  {
    if step.Take? && s' != s {
      var h := s'.headers[|s.headers|];
      GrantedLinked(s.blocks, s'.blocks, h, ptr + Request(step.n, step.alignment) - h);
    } else if step.Give? && s' != s {
      FreedLinked(s.blocks, s'.blocks, s.headers[step.i]);
    }
  }

  lemma GrantedLinked(v: Blocks, w: Blocks, h: nat, off: nat)
    requires GrantedAs(v, w, h, off)
    ensures Linked(w) && Coalesced(w)
  {
    GrantedKeeps(v, h, off);
  }

  lemma FreedLinked(v: Blocks, w: Blocks, h: nat)
    requires FreedAs(v, w, h)
    ensures Linked(w) && Coalesced(w)
  {
    FreedKeeps(v, h);
  }

  /** A pointer is a multiple of the alignment asked for. */
  lemma GivenAligned(states: seq<State>, steps: seq<Step>, given: seq<nat>, k: nat)
    requires History(states, steps, given) && k < |given| && steps[k].Take? && Admissible(steps[k])
    ensures given[k] != 0 ==> Sensible(steps[k]) && given[k] % steps[k].alignment == 0
  {
    assert Performed(states, steps, given, k);
    StaysLinked(states, steps, given, k);
    if given[k] != 0 {
      TakenNear(states[k].blocks, states[k + 1].headers[|states[k].headers|], steps[k].alignment);
    }
  }

  /** While the takes so far leave room, the last block is free, and no higher than they allow. */
  lemma {:induction false} LeavesRoom(states: seq<State>, steps: seq<Step>, given: seq<nat>, k: nat)
    requires History(states, steps, given) && k <= |given| && Volume(steps, k) <= ROOM
    requires forall i | 0 <= i < k :: Admissible(steps[i])
    ensures TailBelow(states[k].blocks, HEAP_START + Volume(steps, k))
  {
    if k > 0 {
      LeavesRoom(states, steps, given, k - 1);
      StaysLinked(states, steps, given, k - 1);
      assert Performed(states, steps, given, k - 1);
      MoveLeavesRoom(states[k - 1], steps[k - 1], given[k - 1], states[k], HEAP_START + Volume(steps, k - 1));
    }
  }

  /** A placed request moves the last block up by its cost at most. */
  lemma PlacedTail(s: State, s': State, h: nat, ptr: nat, bound: nat, step: Step)
    requires Sensible(step) && Admissible(step) && Linked(s.blocks)
    requires TakesAt(s, Request(step.n, step.alignment), step.alignment, h, ptr, s')
    requires TailBelow(s.blocks, bound) && bound + Cost(step) <= HEAP_START + ROOM
    ensures TailBelow(s'.blocks, bound + Cost(step))
  {
    assert LinkedAt(s.blocks, h);
    PayloadIs(h, step.alignment);
    GrantedTail(s.blocks, h, ptr + Request(step.n, step.alignment) - h, bound, Cost(step));
  }

  lemma MoveLeavesRoom(s: State, step: Step, ptr: nat, s': State, bound: nat)
    requires Linked(s.blocks) && Coalesced(s.blocks) && Moves(s, step, ptr, s') && Admissible(step)
    requires TailBelow(s.blocks, bound) && bound + Cost(step) <= HEAP_START + ROOM
    ensures TailBelow(s'.blocks, bound + Cost(step))
  {
    if step.Take? && s' != s {
      PlacedTail(s, s', s'.headers[|s.headers|], ptr, bound, step);
    } else if step.Give? && s' != s {
      FreedTail(s.blocks, s.headers[step.i], bound);
    }
  }

  /** As long as the takes do not exceed the room there is, no release crashes and no sensible take is
      refused, whatever the client gives back in between. */
  lemma WithinRoom(states: seq<State>, steps: seq<Step>, given: seq<nat>, k: nat)
    requires History(states, steps, given) && k <= |given| && k < |steps| && Volume(steps, k + 1) <= ROOM
    requires forall i | 0 <= i <= k :: Admissible(steps[i])
    ensures !Crashes(states[k], steps[k])
    ensures k < |given| && Sensible(steps[k]) ==> given[k] != 0
  {
    LeavesRoom(states, steps, given, k);
    StaysLinked(states, steps, given, k);
    assert k < |given| ==> Performed(states, steps, given, k);
    if Sensible(steps[k]) { TailFits(states[k].blocks, HEAP_START + Volume(steps, k), steps[k]); }
  }

  /** Any run of a client on a fresh heap, until a null write. The heap goes through the states that the
      steps lead to. What the client owns follows from its steps and the pointers it was given; its
      pieces never meet, and each still holds what the client wrote last. When it owns nothing, the
      heap is one free block of the original size. */
  method Run(region: Memory, steps: seq<Step>)
    returns (heap: KernelHeap, given: seq<nat>, ghost states: seq<State>, crashed: bool)
    requires forall k | 0 <= k < |steps| :: Admissible(steps[k])
    ensures History(states, steps, given)
    ensures if crashed then |given| < |steps| && Crashes(states[|given|], steps[|given|]) else |given| == |steps|
    ensures !crashed ==> Serves(heap, states[|steps|], After(steps, given, |steps|))
    ensures !crashed && After(steps, given, |steps|) == [] ==> heap.blocks == Whole()
    ensures !crashed ==> forall h, k | h in heap.grants && k in heap.grants && h != k ::
      Separate(heap.grants[h], heap.grants[k])
    ensures crashed ==> Volume(steps, |given| + 1) > ROOM
  {
    heap := new KernelHeap.Init(region);
    given, states, crashed := [], [State(Whole(), [])], false;
    var owned: seq<Claim> := [];
    while |given| < |steps| && !crashed
      invariant fresh(heap) && History(states, steps, given)
      invariant if crashed then |given| < |steps| && Crashes(states[|given|], steps[|given|])
                else owned == After(steps, given, |given|) && Serves(heap, states[|given|], owned)
      decreases |steps| - |given|, !crashed
    {
      owned, given, states, crashed := PerformNext(heap, steps, owned, given, states);
    }
    if crashed {
      if Volume(steps, |given| + 1) <= ROOM { WithinRoom(states, steps, given, |given|); }
    } else {
      OwnsNothing(heap.blocks, heap.memory, heap.grants, owned, states[|steps|].headers);
      AllSeparate(heap.blocks, heap.memory, heap.grants);
    }
  }

  /** One round of a run. */
  method PerformNext(heap: KernelHeap, steps: seq<Step>, owned: seq<Claim>, given: seq<nat>, ghost states: seq<State>)
    returns (owned': seq<Claim>, given': seq<nat>, ghost states': seq<State>, crashed: bool)
    requires History(states, steps, given) && |given| < |steps| && Admissible(steps[|given|])
    requires owned == After(steps, given, |given|) && Serves(heap, states[|given|], owned)
    modifies heap
    ensures History(states', steps, given')
    ensures crashed ==> given' == given && Crashes(states'[|given|], steps[|given|])
    ensures !crashed ==> |given'| == |given| + 1 && owned' == After(steps, given', |given'|)
    ensures !crashed ==> Serves(heap, states'[|given'|], owned')
  {
    var ptr;
    ghost var s';
    owned', given', states' := owned, given, states;
    ptr, s', crashed := Perform(heap, steps[|given|], owned, states[|given|]);
    if !crashed {
      HistoryGrows(states, steps, given, s', ptr);
      owned', given', states' := Next(owned, steps[|given|], ptr), given + [ptr], states + [s'];
    }
  }

  lemma HistoryGrows(states: seq<State>, steps: seq<Step>, given: seq<nat>, s': State, ptr: nat)
    requires History(states, steps, given) && |given| < |steps| && Moves(states[|given|], steps[|given|], ptr, s')
    ensures History(states + [s'], steps, given + [ptr]) && (states + [s'])[|given| + 1] == s'
    ensures After(steps, given + [ptr], |given| + 1) == Next(After(steps, given, |given|), steps[|given|], ptr)
  {
    AfterGrows(steps, given, ptr, |given|);
    var states', given' := states + [s'], given + [ptr];
    forall k | 0 <= k < |given'| ensures Performed(states', steps, given', k) {
      if k < |given| { assert Performed(states, steps, given, k); }
    }
  }

  lemma OwnsNothing(v: Blocks, m: Memory, grants: map<nat, Grant>, owned: seq<Claim>, headers: seq<nat>)
    requires Linked(v) && Coalesced(v) && GrantsFit(v, m, grants) && Owns(m, grants, owned, headers)
    ensures owned == [] ==> v == Whole()
  {
    if owned == [] {
      assert grants == map[];
      AllReturned(v, m, grants);
    }
  }

  lemma AllSeparate(v: Blocks, m: Memory, grants: map<nat, Grant>)
    requires Linked(v) && GrantsFit(v, m, grants)
    ensures forall h, k | h in grants && k in grants && h != k :: Separate(grants[h], grants[k])
  {
    forall h, k | h in grants && k in grants && h != k ensures Separate(grants[h], grants[k]) {
      GrantsApart(v, m, grants, h, k);
      assert GrantAt(v, m, k, grants[k]);
    }
  }

  /** The bytes of two grants and their back words do not meet. */
  ghost predicate Separate(a: Grant, b: Grant) {
    a.ptr + a.n <= b.ptr - BACK_SIZE || b.ptr + b.n <= a.ptr - BACK_SIZE
  }
}
