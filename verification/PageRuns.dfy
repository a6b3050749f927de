/** Runs of the physical page manager (Kernel/Source/Memory/Physmemmgmt.c): who owns a page, and inputs
    on which the manager does not do what one would expect. */
module PageRuns {
  import opened Machine
  import opened PageSearch
  import opened Descriptors
  import opened Physmem

  datatype PageOp =
    | Acquire(hint: nat)
    | AcquireDense(count: nat, hint: nat)
    | Relinquish(id: nat)
    | Reserve(id: nat)
    | Hint(id: nat)

  datatype Answer = Pages(ids: seq<nat>) | Status(ok: bool)

  /** The state of the manager as far as its answers depend on it. */
  datatype Pool = Pool(taken: set<nat>, reserved: set<nat>, hint: nat)

  /** The answer is the one the state demands: an acquisition finds the next free page in cyclic order
      and fails exactly when the manager is dry, a dense one finds a run exactly when it would see one, a
      release succeeds exactly for a taken page that is not reserved, a reservation for a taken page. */
  ghost predicate Answers(p: Pool, nr: nat, op: PageOp, a: Answer) {
    match op
    case Acquire(hint) =>
      var start := StartPage(hint, p.hint);
      && a.Pages?
      && if start >= nr || (forall id: nat :: !Free(p.taken, nr, id)) then a.ids == []
         else |a.ids| == 1 && FirstFree(p.taken, nr, start, a.ids[0])
    case AcquireDense(count, hint) =>
      a.Pages? && AcquireResult(p.taken, nr, StartPage(hint, p.hint), count, false, true, true, a.ids)
    case Relinquish(id) => a == Status(id in p.taken && id !in p.reserved)
    case Reserve(id) => a == Status(id in p.taken)
    case Hint(id) => a == Status(id < nr)
  }

  ghost function Next(p: Pool, op: PageOp, a: Answer): Pool {
    match a
    case Pages(ids) =>
      p.(taken := p.taken + IdSet(ids), hint := if ids == [] then p.hint else ids[|ids| - 1] + 1)
    case Status(ok) =>
      if !ok then p
      else
        match op
        case Relinquish(id) => p.(taken := p.taken - {id})
        case Reserve(id) => p.(reserved := p.reserved + {id})
        case Hint(id) => p.(hint := id)
        case _ => p
  }

  /** The states of a run, before the first operation and after each. */
  ghost predicate History(pools: seq<Pool>, nr: nat, ops: seq<PageOp>, answers: seq<Answer>) {
    && |pools| == |answers| + 1 <= |ops| + 1
    && forall k {:trigger Served(pools, nr, ops, answers, k)} | 0 <= k < |answers| :: Served(pools, nr, ops, answers, k)
  }

  ghost predicate Served(pools: seq<Pool>, nr: nat, ops: seq<PageOp>, answers: seq<Answer>, k: int) {
    && 0 <= k < |answers| && k + 1 < |pools| && k < |ops|
    && Answers(pools[k], nr, ops[k], answers[k]) && pools[k + 1] == Next(pools[k], ops[k], answers[k])
  }

  /** The pages out: each is counted once for every time it was handed out, and taken off again when it
      is given back. */
  ghost function Out(start: multiset<nat>, ops: seq<PageOp>, answers: seq<Answer>, k: nat): multiset<nat>
    requires k <= |ops| && k <= |answers|
  {
    if k == 0 then start
    else
      var before := Out(start, ops, answers, k - 1);
      match answers[k - 1]
      case Pages(ids) => before + multiset(ids)
      case Status(ok) => if ok && ops[k - 1].Relinquish? then before - multiset{ops[k - 1].id} else before
  }

  /** The ids that `op` may name: those of pages, and those behind the bitmap, but no padding bit. */
  predicate Named(op: PageOp, nr: nat) {
    op.Relinquish? ==> op.id < nr || op.id >= 8 * ((nr + 7) / 8)
  }

  ghost predicate Holds(p: Pool, initial: set<nat>) {
    initial <= p.reserved <= p.taken
  }

  lemma OutStep(p: Pool, nr: nat, op: PageOp, a: Answer, initial: set<nat>)
    requires Holds(p, initial) && Answers(p, nr, op, a)
    ensures Holds(Next(p, op, a), initial)
    ensures a.Pages? ==> Distinct(a.ids) && forall id | id in a.ids :: id !in p.taken
    ensures a.Pages? ==>
      multiset(Next(p, op, a).taken - initial) == multiset(p.taken - initial) + multiset(a.ids)
    ensures a.Status? ==>
      multiset(Next(p, op, a).taken - initial) ==
      (if a.ok && op.Relinquish? then multiset(p.taken - initial) - multiset{op.id} else multiset(p.taken - initial))
  {
    match op
    case Acquire(hint) =>
      if |a.ids| == 1 { assert a.ids == [a.ids[0]]; }
      LedgerGrows(p.taken, initial, a.ids);
    case AcquireDense(count, hint) => LedgerGrows(p.taken, initial, a.ids);
    case Relinquish(id) => if a.ok { LedgerDrops(p.taken, initial, id); }
    case Reserve(id) =>
    case Hint(id) =>
  }

  /** At every point of a run the pages out are the pages taken since initialization, each once. */
  lemma {:induction false} OutExactly(pools: seq<Pool>, nr: nat, ops: seq<PageOp>, answers: seq<Answer>,
        initial: set<nat>, k: nat)
    requires History(pools, nr, ops, answers) && Holds(pools[0], initial) && k <= |answers|
    ensures Out(multiset(pools[0].taken - initial), ops, answers, k) == multiset(pools[k].taken - initial)
    ensures Holds(pools[k], initial)
  {
    if k > 0 {
      OutExactly(pools, nr, ops, answers, initial, k - 1);
      assert Served(pools, nr, ops, answers, k - 1);
      OutStep(pools[k - 1], nr, ops[k - 1], answers[k - 1], initial);
    }
  }

  /** No page is handed out while it is out, nor twice by one answer, nor ever when it was unavailable
      from the start. */
  lemma NotHandedOutTwice(pools: seq<Pool>, nr: nat, ops: seq<PageOp>, answers: seq<Answer>, initial: set<nat>, k: nat)
    requires History(pools, nr, ops, answers) && Holds(pools[0], initial) && k < |answers| && answers[k].Pages?
    ensures Distinct(answers[k].ids)
    ensures forall id | id in answers[k].ids ::
      id !in Out(multiset(pools[0].taken - initial), ops, answers, k) && id !in initial
  {
    OutExactly(pools, nr, ops, answers, initial, k);
    assert Served(pools, nr, ops, answers, k);
    OutStep(pools[k], nr, ops[k], answers[k], initial);
  }

  ghost predicate InPool(pm: PageManager, p: Pool)
    reads pm, pm.primary, pm.advisory
  {
    pm.Valid() && pm.taken == p.taken && pm.reserved == p.reserved && pm.acquireHint == p.hint
  }

  /** Any run of page operations: every answer is the one that the state at that point demands, the
      manager ends in the state the answers lead to, and its counter is the number of pages out. */
  method Serve(pm: PageManager, ops: seq<PageOp>) returns (answers: seq<Answer>, ghost pools: seq<Pool>)
    requires pm.Valid() && forall op | op in ops :: Named(op, pm.nrPages)
    modifies pm, pm.primary, pm.advisory
    ensures |answers| == |ops| && History(pools, pm.nrPages, ops, answers)
    ensures pools[0] == old(Pool(pm.taken, pm.reserved, pm.acquireHint)) && InPool(pm, pools[|ops|])
    ensures pm.acquiredPages == |Out(multiset(old(pm.taken) - pm.initial), ops, answers, |ops|)|
  {
    answers, pools := [], [Pool(pm.taken, pm.reserved, pm.acquireHint)];
    for i := 0 to |ops|
      invariant |answers| == i && History(pools, pm.nrPages, ops, answers) && InPool(pm, pools[i])
      invariant pools[0] == old(Pool(pm.taken, pm.reserved, pm.acquireHint))
    {
      var a := ServeOne(pm, ops[i], pools[i]);
      HistoryGrows(pools, pm.nrPages, ops, answers, a);
      pools := pools + [Next(pools[i], ops[i], a)];
      answers := answers + [a];
    }
    OutExactly(pools, pm.nrPages, ops, answers, pm.initial, |ops|);
  }

  lemma HistoryGrows(pools: seq<Pool>, nr: nat, ops: seq<PageOp>, answers: seq<Answer>, a: Answer)
    requires History(pools, nr, ops, answers) && |answers| < |ops|
    requires Answers(pools[|answers|], nr, ops[|answers|], a)
    ensures History(pools + [Next(pools[|answers|], ops[|answers|], a)], nr, ops, answers + [a])
  {
    var pools', answers' := pools + [Next(pools[|answers|], ops[|answers|], a)], answers + [a];
    forall k | 0 <= k < |answers'| ensures Served(pools', nr, ops, answers', k) {
      if k < |answers| { assert Served(pools, nr, ops, answers, k); }
    }
  }

  method ServeOne(pm: PageManager, op: PageOp, ghost p: Pool) returns (a: Answer)
    requires InPool(pm, p) && Named(op, pm.nrPages)
    modifies pm, pm.primary, pm.advisory
    ensures Answers(p, pm.nrPages, op, a) && InPool(pm, Next(p, op, a))
  {
    match op {
      case Acquire(hint) => a := ServeAcquire(pm, hint, p);
      case AcquireDense(count, hint) =>
        var found := pm.AcquirePages(count, false, true, true, hint);
        ConsecutiveDistinct(found);
        a := Pages(found);
      case Relinquish(id) =>
        var ok := pm.RelinquishPage(id);
        a := Status(ok);
      case Reserve(id) =>
        var ok := pm.ReservePage(id);
        a := Status(ok);
      case Hint(id) =>
        var ok := pm.SetAcquisitionHint(id);
        a := Status(ok);
    }
  }

  method ServeAcquire(pm: PageManager, hint: nat, ghost p: Pool) returns (a: Answer)
    requires InPool(pm, p)
    modifies pm, pm.primary, pm.advisory
    ensures Answers(p, pm.nrPages, Acquire(hint), a) && InPool(pm, Next(p, Acquire(hint), a))
  {
    var id := pm.AcquirePage(hint);
    if id == INVALID_PAGE {
      a := Pages([]);
      assert IdSet(a.ids) == {};
    } else {
      a := Pages([id]);
      assert IdSet(a.ids) == {id};
    }
  }

  lemma ConsecutiveDistinct(ids: seq<nat>)
    requires Consecutive(ids)
    ensures Distinct(ids)
  {
  }

  lemma LedgerDrops(taken: set<nat>, initial: set<nat>, id: nat)
    requires initial <= taken && id in taken && id !in initial
    ensures multiset((taken - {id}) - initial) == multiset(taken - initial) - multiset{id}
  {
    assert (taken - {id}) - initial == (taken - initial) - {id};
  }

  lemma LedgerGrows(taken: set<nat>, initial: set<nat>, found: seq<nat>)
    requires initial <= taken && Consecutive(found)
    requires forall id | id in found :: id !in taken
    ensures Distinct(found)
    ensures multiset((taken + IdSet(found)) - initial) == multiset(taken - initial) + multiset(found)
  {
    DistinctMultiset(found);
    assert (taken + IdSet(found)) - initial == (taken - initial) + IdSet(found);
  }

  lemma {:induction false} DistinctMultiset(ids: seq<nat>)
    requires Distinct(ids)
    ensures multiset(ids) == multiset(IdSet(ids))
    decreases |ids|
  {
    if ids == [] {
      assert IdSet(ids) == {};
    } else {
      var init, last := ids[..|ids| - 1], ids[|ids| - 1];
      DistinctMultiset(init);
      assert ids == init + [last];
      assert last !in init by {
        assert forall k | 0 <= k < |init| :: init[k] == ids[k];
      }
      assert IdSet(ids) == IdSet(init) + {last};
    }
  }

  /** A dense scan that starts at page 8 misses the eight free pages 4 to 11 and takes fewer. */
  lemma DenseMissesStraddlingRun(taken: set<nat>, found: seq<nat>)
    requires forall id: nat :: id in taken <==> id < 4 || 12 <= id < 24
    requires AcquireResult(taken, 24, 8, 8, false, true, true, found)
    ensures HasRun(taken, 24, 0, 24, 8) && |found| < 8
  {
    assert AllFree(taken, 24, 4, 8);
    NoRunAround(taken);
  }

  lemma NoRunAround(taken: set<nat>)
    requires forall id: nat :: id in taken <==> id < 4 || 12 <= id < 24
    ensures !HasRun(taken, 24, 8, 24, 8) && !HasRun(taken, 24, 0, RoundUp8(8), 8)
  {
    forall base: nat | base != 4 && base + 8 <= 24
      ensures AllFree(taken, 24, base, 8) ==> 0 < base < 8
    {
      assert Free(taken, 24, base) ==> 4 <= base < 12;
      assert Free(taken, 24, base + 7) ==> 4 <= base + 7 < 12;
    }
  }

  /** A sparse request for all four pages, of which two are free, lists both twice when it starts at one
      of them. */
  lemma SparseTwice()
    ensures SparseScan({0, 1}, 4, 2, 4) == [2, 3, 2, 3] && !Distinct(SparseScan({0, 1}, 4, 2, 4))
  {
    var taken := {0, 1};
    assert FreeList(taken, 4, 2, 2) == [] && FreeList(taken, 4, 2, 3) == [2];
    assert FreeList(taken, 4, 2, 4) == [2, 3];
    assert FreeList(taken, 4, 0, 2) == [] by {
      assert FreeList(taken, 4, 0, 0) == [] && FreeList(taken, 4, 0, 1) == [];
    }
    FreeListSplit(taken, 4, 0, 2, 4);
    FreeListSplit(taken, 4, 0, 4, 8);
    FreeListBeyond(taken, 4, 8);
    assert FreeList(taken, 4, 0, RoundUp8(2)) == [2, 3];
    assert SparseScan(taken, 4, 2, 4) == [2, 3] + [2, 3];
    assert [2, 3, 2, 3][0] == [2, 3, 2, 3][2];
  }

  /** The firmware map of a machine with one usable region from address 0. */
  function OneRegion(pages: nat): seq<Descriptor> {
    [Descriptor(0, pages, 0, CONVENTIONAL_MEMORY, 0)]
  }

  lemma OneRegionFree(pages: nat, kernelPage: nat, kernelPages: nat)
    ensures PageTotal(OneRegion(pages)) == pages && FitBelow(OneRegion(pages), pages)
    ensures forall id: nat :: Free(ClosedPages(OneRegion(pages), kernelPage, kernelPages, pages), pages, id) <==>
      id < pages && !(kernelPage <= id < kernelPage + kernelPages <= pages) && !(id < 256 <= pages)
  {
    var r := OneRegion(pages);
    assert r[..0] == [];
    assert Highest(r[..0]) == 0;
    ClosedPagesMeaning(r, kernelPage, kernelPages, pages);
    forall id: nat | id < pages ensures InRegions(r, id) { assert r[0] in r && OnPage(r[0], id); }
  }

  /** On a machine of 100 pages page 0 stays free, and so does the kernel when its area is taken to end
      behind the last page. */
  lemma OpenAfterInit()
    ensures Free(ClosedPages(OneRegion(100), 90, 20, 100), 100, 0)
    ensures Free(ClosedPages(OneRegion(100), 90, 20, 100), 100, 95)
  {
    OneRegionFree(100, 90, 20);
  }

  /** A machine with 300 pages, of which 44 are free after initialization. */
  method StartSmall() returns (pm: PageManager)
    ensures fresh(pm) && fresh(pm.primary) && pm.Valid() && pm.nrPages == 300 && pm.acquiredPages == 0
    ensures pm.taken == pm.initial
    ensures forall id: nat {:trigger Free(pm.taken, pm.nrPages, id)} ::
      Free(pm.taken, pm.nrPages, id) <==> 256 <= id < 300
  {
    OneRegionFree(300, 0, 0);
    pm := new PageManager.Init(OneRegion(300), OneRegion(300), 0, 0);
  }

  /** On that machine the id 300 names a padding bit: its release is accepted, and the counter is then
      one below zero. */
  method PaddingReleased() returns (pm: PageManager, ok: bool)
    ensures ok && pm.nrPages == 300 && pm.acquiredPages == -1 && !pm.Valid()
  {
    pm := StartSmall();
    ok := ReleasePadding(pm, 300);
  }

  method ReleasePadding(pm: PageManager, id: nat) returns (ok: bool)
    requires pm.Valid() && pm.nrPages <= id && id / 8 < (pm.nrPages + 7) / 8
    modifies pm`acquiredPages, pm`taken, pm.primary
    ensures ok && pm.acquiredPages == old(pm.acquiredPages) - 1 && !pm.Valid()
  {
    assert pm.primary.Length == (pm.nrPages + 7) / 8;
    ok := pm.RelinquishPage(id);
  }

  // ---- The hint walks past the last page ----

  /** Once the last page is claimed, and nothing else, a request without a hint finds the manager dry
      although another page is free. */
  method HintPastEnd(pm: PageManager, ghost free: nat) returns (first: nat, second: nat)
    requires pm.Valid() && 0 < pm.nrPages < INVALID_PAGE && Free(pm.taken, pm.nrPages, pm.nrPages - 1)
    requires Free(pm.taken, pm.nrPages, free) && free != pm.nrPages - 1
    modifies pm`acquiredPages, pm`acquireHint, pm`taken, pm.primary
    ensures first == pm.nrPages - 1 && second == INVALID_PAGE
    ensures pm.Valid() && pm.taken == old(pm.taken) + {pm.nrPages - 1} && pm.Dry(INVALID_PAGE)
    ensures Free(pm.taken, pm.nrPages, free)
  {
    ghost var last := pm.nrPages - 1;
    assert CyclicDistance(pm.nrPages, last, last) == 0;
    first := pm.AcquirePage(pm.nrPages - 1);
    second := pm.AcquirePage(INVALID_PAGE);
  }

  /** On the machine with 300 pages: after one request, for page 299, no request without a hint
      succeeds. */
  method HintRunsOut() returns (pm: PageManager)
    ensures pm.Valid() && pm.nrPages == 300 && pm.taken == pm.initial + {299}
    ensures pm.Dry(INVALID_PAGE) && Free(pm.taken, pm.nrPages, 256)
  {
    pm := StartSmall();
    var first, second := HintPastEnd(pm, 256);
  }
}
