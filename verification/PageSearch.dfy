/** What the scans of PmAcquirePages (Kernel/Source/Memory/Physmemmgmt.c) find, stated over the
    set of taken pages instead of over bitmap bytes. */
module PageSearch {
  import opened Machine


  ghost predicate Free(taken: set<nat>, nr: nat, id: nat) {
    id < nr && id !in taken
  }

  /** The free pages of [lo, hi) in ascending order. */
  ghost function FreeList(taken: set<nat>, nr: nat, lo: nat, hi: nat): seq<nat>
    decreases hi
  {
    if hi <= lo then []
    else FreeList(taken, nr, lo, hi - 1) + (if Free(taken, nr, hi - 1) then [hi - 1] else [])
  }

  ghost predicate AllFree(taken: set<nat>, nr: nat, base: nat, n: nat) {
    forall id | base <= id < base + n :: Free(taken, nr, id)
  }

  /** `n` consecutive free pages exist inside [lo, hi). */
  ghost predicate HasRun(taken: set<nat>, nr: nat, lo: nat, hi: nat, n: nat) {
    exists base: nat :: lo <= base && base + n <= hi && AllFree(taken, nr, base, n)
  }

  /** `base` is the lowest page from `lo` on at which `n` free pages begin. */
  ghost predicate LowestRun(taken: set<nat>, nr: nat, lo: nat, n: nat, base: nat) {
    && lo <= base && AllFree(taken, nr, base, n)
    && forall other: nat {:trigger AllFree(taken, nr, other, n)} | lo <= other < base :: !AllFree(taken, nr, other, n)
  }

  /** `found` is all the free pages that end where [lo, hi) ends. */
  ghost predicate TrailingRun(taken: set<nat>, nr: nat, lo: nat, hi: nat, found: seq<nat>) {
    && lo + |found| <= hi
    && (forall k | 0 <= k < |found| :: found[k] == hi - |found| + k)
    && AllFree(taken, nr, hi - |found|, |found|)
    && (lo + |found| < hi ==> !Free(taken, nr, hi - |found| - 1))
  }

  /** The ids base, base + 1, ... */
  ghost predicate Consecutive(ids: seq<nat>) {
    forall k | 0 <= k < |ids| :: ids[k] == ids[0] + k
  }

  ghost predicate Ascending(ids: seq<nat>) {
    forall j, k | 0 <= j < k < |ids| :: ids[j] < ids[k]
  }

  ghost function Take(s: seq<nat>, n: nat): seq<nat> {
    if |s| <= n then s else s[..n]
  }

  function RoundUp8(id: nat): nat {
    8 * ((id + 7) / 8)
  }

  /** What a sparse scan lists: the free pages from `start` to the end, then, if those do not
      suffice, those of the bytes from 0 up to and including the byte `start` lies in. */
  ghost function SparseScan(taken: set<nat>, nr: nat, start: nat, n: nat): seq<nat> {
    var first := FreeList(taken, nr, start, nr);
    if start == 0 || n <= |first| then Take(first, n)
    else Take(first + FreeList(taken, nr, 0, RoundUp8(start)), n)
  }

  // ---- Facts about FreeList ----

  lemma {:induction false} FreeListContents(taken: set<nat>, nr: nat, lo: nat, hi: nat)
    ensures forall id :: id in FreeList(taken, nr, lo, hi) <==> lo <= id < hi && Free(taken, nr, id)
    ensures Ascending(FreeList(taken, nr, lo, hi))
    decreases hi
  {
    if lo < hi {
      FreeListContents(taken, nr, lo, hi - 1);
      var shorter := FreeList(taken, nr, lo, hi - 1);
      assert forall k | 0 <= k < |shorter| :: shorter[k] in shorter;
    }
  }

  lemma {:induction false} FreeListSplit(taken: set<nat>, nr: nat, lo: nat, mid: nat, hi: nat)
    requires lo <= mid <= hi
    ensures FreeList(taken, nr, lo, hi) == FreeList(taken, nr, lo, mid) + FreeList(taken, nr, mid, hi)
    decreases hi
  {
    if mid < hi {
      FreeListSplit(taken, nr, lo, mid, hi - 1);
    }
  }

  lemma {:induction false} FreeListBeyond(taken: set<nat>, nr: nat, hi: nat)
    requires nr <= hi
    ensures FreeList(taken, nr, nr, hi) == []
  {
    FreeListContents(taken, nr, nr, hi);
    if FreeList(taken, nr, nr, hi) != [] {
      assert FreeList(taken, nr, nr, hi)[0] in FreeList(taken, nr, nr, hi);
    }
  }

  // ---- One step of the scan ----

  /** State of the scan of [lo, ...) that has looked at every page below `id`. */
  ghost predicate Scanned(dense: bool, taken: set<nat>, nr: nat, n: nat, pre: seq<nat>, lo: nat, id: nat,
        found: seq<nat>) {
    && lo <= id
    && |found| <= n
    && if dense then
         && lo <= id - |found|
         && (forall k | 0 <= k < |found| :: found[k] == id - |found| + k)
         && AllFree(taken, nr, id - |found|, |found|)
         && (|found| < n ==> !HasRun(taken, nr, lo, id, n))
         && (|found| == n > 0 ==> !HasRun(taken, nr, lo, id - 1, n))
         && (lo < id - |found| && |found| < n ==> !Free(taken, nr, id - |found| - 1))
       else found == pre + FreeList(taken, nr, lo, id)
  }

  ghost function ScanPage(dense: bool, taken: set<nat>, nr: nat, id: nat, found: seq<nat>): seq<nat> {
    if Free(taken, nr, id) then found + [id] else if dense then [] else found
  }

  lemma ScanStep(dense: bool, taken: set<nat>, nr: nat, n: nat, pre: seq<nat>, lo: nat, id: nat, found: seq<nat>)
    requires Scanned(dense, taken, nr, n, pre, lo, id, found) && |found| < n
    ensures Scanned(dense, taken, nr, n, pre, lo, id + 1, ScanPage(dense, taken, nr, id, found))
  {
    var found' := ScanPage(dense, taken, nr, id, found);
    if dense && |found'| < n {
      forall base: nat | lo <= base && base + n <= id + 1
        ensures !AllFree(taken, nr, base, n)
      {
        if base + n == id + 1 && Free(taken, nr, id) {
          assert !Free(taken, nr, id - |found| - 1);
        }
      }
    }
  }

  // ---- What the scans promise ----

  ghost function CyclicDistance(nr: nat, start: nat, id: nat): nat
    requires start < nr && id < nr
  {
    if start <= id then id - start else id + nr - start
  }

  /** No free page comes before `id` when one counts up from `start` and wraps at `nr`. */
  ghost predicate FirstFree(taken: set<nat>, nr: nat, start: nat, id: nat)
    requires start < nr
  {
    && Free(taken, nr, id)
    && forall other | Free(taken, nr, other) :: CyclicDistance(nr, start, id) <= CyclicDistance(nr, start, other)
  }

  /** A one-page sparse scan is next-fit and complete: it finds the free page that comes first
      in cyclic order from `start`, and nothing exactly when no page is free. */
  lemma NextFit(taken: set<nat>, nr: nat, start: nat)
    requires start < nr
    ensures SparseScan(taken, nr, start, 1) == [] <==> forall id :: !Free(taken, nr, id)
    ensures SparseScan(taken, nr, start, 1) != [] ==>
      |SparseScan(taken, nr, start, 1)| == 1 && FirstFree(taken, nr, start, SparseScan(taken, nr, start, 1)[0])
  {
    var wrap := RoundUp8(start);
    var first, second := FreeList(taken, nr, start, nr), FreeList(taken, nr, 0, wrap);
    if first != [] {
      LeastFirst(taken, nr, start, nr);
    } else {
      NoneFree(taken, nr, start, nr);
      if second == [] || start == 0 {
        NoneFree(taken, nr, 0, wrap);
      } else {
        LeastFirst(taken, nr, 0, wrap);
      }
    }
  }

  lemma NoneFree(taken: set<nat>, nr: nat, lo: nat, hi: nat)
    requires FreeList(taken, nr, lo, hi) == []
    ensures forall id | lo <= id < hi :: !Free(taken, nr, id)
  {
    FreeListContents(taken, nr, lo, hi);
  }

  lemma LeastFirst(taken: set<nat>, nr: nat, lo: nat, hi: nat)
    requires FreeList(taken, nr, lo, hi) != []
    ensures var least := FreeList(taken, nr, lo, hi)[0];
      lo <= least < hi && Free(taken, nr, least) && forall id | lo <= id < hi && Free(taken, nr, id) :: least <= id
  {
    FreeListContents(taken, nr, lo, hi);
    var all := FreeList(taken, nr, lo, hi);
    assert all[0] in all;
    forall id | lo <= id < hi && Free(taken, nr, id)
      ensures all[0] <= id
    {
      var k :| 0 <= k < |all| && all[k] == id;
      assert Ascending(all);
    }
  }

  /** A sparse scan lists no page twice exactly when it asks for no more pages than are free,
      or no free page shares the start's byte at or above it. The wraparound pass works by
      whole bytes, so an over-sized request sees those pages a second time. */
  lemma SparseDistinct(taken: set<nat>, nr: nat, start: nat, n: nat)
    requires start < nr
    ensures Distinct(SparseScan(taken, nr, start, n)) <==>
      n <= |FreeList(taken, nr, 0, nr)| || FreeList(taken, nr, start, RoundUp8(start)) == []
  {
    var first, below := FreeList(taken, nr, start, nr), FreeList(taken, nr, 0, start);
    var again := FreeList(taken, nr, start, RoundUp8(start));
    FreeListSplit(taken, nr, 0, start, nr);
    FreeListSplit(taken, nr, 0, start, RoundUp8(start));
    ListsRelated(taken, nr, start);
    ScanOfThree(first, below, again, n, SparseScan(taken, nr, start, n), start);
    TakeDistinct(first, below, again, n);
  }

  lemma ListsRelated(taken: set<nat>, nr: nat, start: nat)
    ensures var first, below := FreeList(taken, nr, start, nr), FreeList(taken, nr, 0, start);
      var again := FreeList(taken, nr, start, RoundUp8(start));
      && Ascending(first) && Ascending(below)
      && (forall x {:trigger x in first} {:trigger x in below} :: x in first ==> x !in below)
      && (forall x {:trigger x in again} :: x in again ==> x in first)
  {
    FreeListContents(taken, nr, start, nr);
    FreeListContents(taken, nr, 0, start);
    FreeListContents(taken, nr, start, RoundUp8(start));
  }

  lemma ScanOfThree(first: seq<nat>, below: seq<nat>, again: seq<nat>, n: nat, scan: seq<nat>, start: nat)
    requires start == 0 ==> below == [] && again == []
    requires scan == if start == 0 || n <= |first| then Take(first, n) else Take(first + (below + again), n)
    ensures scan == Take(first + below + again, n)
  {
    assert first + (below + again) == first + below + again;
  }

  lemma TakeDistinct(first: seq<nat>, below: seq<nat>, again: seq<nat>, n: nat)
    requires Ascending(first) && Ascending(below)
    requires forall x :: x in first ==> x !in below
    requires forall x :: x in again ==> x in first
    ensures Distinct(Take(first + below + again, n)) <==> n <= |first| + |below| || again == []
  {
    DisjointDistinct(first, below);
    var listed := Take(first + below + again, n);
    if n <= |first| + |below| || again == [] {
      assert listed == Take(first + below, n);
    } else {
      assert again[0] in again;
      var k :| 0 <= k < |first| && first[k] == again[0];
      assert listed[k] == again[0] == listed[|first| + |below|];
    }
  }

  /** No id is listed twice in a row right after its predecessor id. */
  ghost predicate NoStutter(ids: seq<nat>) {
    forall k | 0 <= k < |ids| - 2 :: ids[k] + 1 == ids[k + 1] ==> ids[k + 1] != ids[k + 2]
  }

  /** A sparse scan lists free pages only, over-sized requests included. */
  lemma SparseFree(taken: set<nat>, nr: nat, start: nat, n: nat)
    requires start < nr
    ensures forall id | id in SparseScan(taken, nr, start, n) :: Free(taken, nr, id)
    ensures NoStutter(SparseScan(taken, nr, start, n))
  {
    var wrap := RoundUp8(start);
    FreeListContents(taken, nr, start, nr);
    FreeListContents(taken, nr, 0, wrap);
    SecondStartsLower(taken, nr, start, wrap);
    TakeOfPair(FreeList(taken, nr, start, nr), FreeList(taken, nr, 0, wrap), n);
  }

  lemma SecondStartsLower(taken: set<nat>, nr: nat, start: nat, wrap: nat)
    ensures var first, second := FreeList(taken, nr, start, nr), FreeList(taken, nr, 0, wrap);
      first != [] && second != [] ==> second[0] <= first[0]
  {
    var first, second := FreeList(taken, nr, start, nr), FreeList(taken, nr, 0, wrap);
    if first != [] && second != [] {
      LeastFirst(taken, nr, start, nr);
      LeastFirst(taken, nr, 0, wrap);
    }
  }

  lemma TakeOfPair(first: seq<nat>, second: seq<nat>, n: nat)
    requires Ascending(first) && Ascending(second)
    requires first != [] && second != [] ==> second[0] <= first[0]
    ensures NoStutter(Take(first, n)) && NoStutter(Take(first + second, n))
    ensures forall id :: id in Take(first, n) ==> id in first
    ensures forall id :: id in Take(first + second, n) ==> id in first || id in second
  {
    PairStutter(first, second, n);
    TakeMembers(first, n);
    TakeMembers(first + second, n);
  }

  lemma TakeMembers(s: seq<nat>, n: nat)
    ensures forall id :: id in Take(s, n) ==> id in s
  {
  }

  lemma PairStutter(first: seq<nat>, second: seq<nat>, n: nat)
    requires Ascending(first) && Ascending(second)
    requires first != [] && second != [] ==> second[0] <= first[0]
    ensures NoStutter(Take(first, n)) && NoStutter(Take(first + second, n))
  {
  }

  lemma DisjointDistinct(a: seq<nat>, b: seq<nat>)
    requires Ascending(a) && Ascending(b)
    requires forall x :: x in a ==> x !in b
    ensures Distinct(a + b)
  {
    forall j, k | 0 <= j < k < |a + b|
      ensures (a + b)[j] != (a + b)[k]
    {
      if j < |a| <= k {
        assert a[j] in a && b[k - |a|] in b;
      }
    }
  }
}
