/** The in-place quicksort of the memory map (Kernel/Source/Init/KrInitMemmap.c). */
module MemmapSort {
  import opened Descriptors
  import opened SortDomain

  /** The elements in [lo, hi), with their multiplicities. */
  ghost function Bag(s: seq<Descriptor>, lo: nat, hi: nat): multiset<Descriptor>
    requires hi <= |s|
  {
    if hi <= lo then multiset{} else Bag(s, lo, hi - 1) + multiset{s[hi - 1]}
  }

  /** `now` differs from `was` at most by the order of the elements in [lo, hi). */
  ghost predicate PermutedIn(was: seq<Descriptor>, now: seq<Descriptor>, lo: nat, hi: nat)
    requires lo <= hi <= |was|
  {
    && |now| == |was|
    && (forall k {:trigger now[k]} | 0 <= k < lo || hi <= k < |was| :: now[k] == was[k])
    && Bag(now, lo, hi) == Bag(was, lo, hi)
  }

  /** KrSwapMemdescs. */
  method Swap(a: array<Descriptor>, i: nat, j: nat)
    requires i < a.Length && j < a.Length
    modifies a
    ensures a[..] == old(a[..])[i := old(a[j])][j := old(a[i])]
  {
    var temp := a[i];
    a[i] := a[j];
    a[j] := temp;
  }

  lemma Associate(a: multiset<Descriptor>, b: multiset<Descriptor>, x: Descriptor)
    ensures a + b + multiset{x} == a + (b + multiset{x})
  {
  }

  lemma {:induction false} BagSplit(s: seq<Descriptor>, lo: nat, mid: nat, hi: nat)
    requires lo <= mid <= hi <= |s|
    ensures Bag(s, lo, hi) == Bag(s, lo, mid) + Bag(s, mid, hi)
  {
    if mid == hi {
      assert Bag(s, mid, hi) == multiset{};
    } else {
      BagSplit(s, lo, mid, hi - 1);
      assert Bag(s, lo, hi) == Bag(s, lo, hi - 1) + multiset{s[hi - 1]};
      assert Bag(s, mid, hi) == Bag(s, mid, hi - 1) + multiset{s[hi - 1]};
      Associate(Bag(s, lo, mid), Bag(s, mid, hi - 1), s[hi - 1]);
    }
  }

  lemma {:induction false} BagSame(a: seq<Descriptor>, b: seq<Descriptor>, lo: nat, hi: nat)
    requires hi <= |a| == |b| && forall k {:trigger b[k]} | lo <= k < hi :: a[k] == b[k]
    ensures Bag(a, lo, hi) == Bag(b, lo, hi)
  {
    if lo < hi { BagSame(a, b, lo, hi - 1); }
  }

  lemma {:induction false} BagUpdated(s: seq<Descriptor>, i: nat, x: Descriptor, lo: nat, hi: nat)
    requires lo <= i < hi <= |s|
    ensures Bag(s[i := x], lo, hi) + multiset{s[i]} == Bag(s, lo, hi) + multiset{x}
  {
    if i == hi - 1 {
      BagSame(s, s[i := x], lo, hi - 1);
    } else {
      BagUpdated(s, i, x, lo, hi - 1);
      Carried(Bag(s[i := x], lo, hi - 1), Bag(s, lo, hi - 1), s[i], x, s[hi - 1]);
    }
  }

  lemma Carried(a: multiset<Descriptor>, b: multiset<Descriptor>, x: Descriptor, y: Descriptor, z: Descriptor)
    requires a + multiset{x} == b + multiset{y}
    ensures a + multiset{z} + multiset{x} == b + multiset{z} + multiset{y}
  {
    assert a + multiset{z} + multiset{x} == a + multiset{x} + multiset{z};
    assert b + multiset{z} + multiset{y} == b + multiset{y} + multiset{z};
  }

  lemma Cancel(a: multiset<Descriptor>, b: multiset<Descriptor>, x: Descriptor)
    requires a + multiset{x} == b + multiset{x}
    ensures a == b
  {
    assert a == a + multiset{x} - multiset{x};
    assert b == b + multiset{x} - multiset{x};
  }

  lemma SwapPermutes(s: seq<Descriptor>, i: nat, j: nat, lo: nat, hi: nat)
    requires lo <= i < hi <= |s| && lo <= j < hi
    ensures PermutedIn(s, s[i := s[j]][j := s[i]], lo, hi)
  {
    var t := s[i := s[j]][j := s[i]];
    BagUpdated(s, i, s[j], lo, hi);
    BagUpdated(s[i := s[j]], j, s[i], lo, hi);
    Cancel(Bag(t, lo, hi), Bag(s, lo, hi), s[j]);
  }

  lemma PermutedTwice(a: seq<Descriptor>, b: seq<Descriptor>, c: seq<Descriptor>, lo: nat, hi: nat)
    requires lo <= hi <= |a| && PermutedIn(a, b, lo, hi) && PermutedIn(b, c, lo, hi)
    ensures PermutedIn(a, c, lo, hi)
  {
  }

  lemma PermutedWider(a: seq<Descriptor>, b: seq<Descriptor>, lo: nat, hi: nat, lo': nat, hi': nat)
    requires lo' <= lo <= hi <= hi' <= |a| && PermutedIn(a, b, lo, hi)
    ensures PermutedIn(a, b, lo', hi')
  {
    BagSplit(a, lo', lo, hi');
    BagSplit(b, lo', lo, hi');
    BagSplit(a, lo, hi, hi');
    BagSplit(b, lo, hi, hi');
    BagSame(a, b, lo', lo);
    BagSame(a, b, hi, hi');
  }

  /** The elements from `lo` on are those of `was`. */
  ghost predicate Untouched(was: seq<Descriptor>, now: seq<Descriptor>, lo: nat) {
    |now| == |was| && forall k {:trigger now[k]} | lo <= k < |was| :: now[k] == was[k]
  }

  /** The elements in [lo, hi) have a base of at least `bound`. */
  ghost predicate AtLeast(s: seq<Descriptor>, lo: nat, hi: nat, bound: nat) {
    forall k {:trigger s[k]} | lo <= k < hi && k < |s| :: bound <= s[k].physicalBase
  }

  /** `part` stands in `s` from index `lo` on. */
  ghost predicate Stands(s: seq<Descriptor>, lo: nat, part: seq<Descriptor>) {
    lo + |part| <= |s| && forall k {:trigger s[k]} | lo <= k < lo + |part| :: s[k] == part[k - lo]
  }

  lemma SwapStands(s: seq<Descriptor>, lo: nat, part: seq<Descriptor>, j: nat)
    requires Stands(s, lo, part) && lo + |part| <= j < |s|
    ensures Stands(s[lo + |part| := s[j]][j := s[lo + |part|]], lo, part)
    ensures Stands(s[lo + |part| := s[j]][j := s[lo + |part|]], lo, part + [s[j]])
  {
  }

  lemma SwapAtLeast(s: seq<Descriptor>, i: nat, j: nat, bound: nat)
    requires i <= j < |s| && AtLeast(s, i, j, bound)
    ensures AtLeast(s[i := s[j]][j := s[i]], i + 1, if i < j then j + 1 else j, bound)
  {
  }

  lemma SwapUntouched(was: seq<Descriptor>, now: seq<Descriptor>, i: nat, j: nat)
    requires i <= j < |was| && Untouched(was, now, j)
    ensures Untouched(was, now[i := now[j]][j := now[i]], j + 1)
  {
  }

  lemma PermutedInside(a: seq<Descriptor>, b: seq<Descriptor>, c: seq<Descriptor>, lo: nat, hi: nat, lo': nat, hi': nat)
    requires lo' <= lo <= hi <= hi' <= |a| && PermutedIn(a, b, lo', hi') && PermutedIn(b, c, lo, hi)
    ensures PermutedIn(a, c, lo', hi')
  {
    PermutedWider(b, c, lo, hi, lo', hi');
    PermutedTwice(a, b, c, lo', hi');
  }

  /** State of the partition loop: of the elements before `j` the smaller ones, `front`, come
      first, then the others; from `j` on nothing has moved. */
  ghost predicate Partitioning(was: seq<Descriptor>, now: seq<Descriptor>, start: nat, limit: nat,
        front: seq<Descriptor>, j: nat) {
    && start + |front| <= j <= limit < |was|
    && Untouched(was, now, j)
    && Stands(now, start, front)
    && AtLeast(now, start + |front|, j, was[limit].physicalBase)
  }

  lemma Permutes(was: seq<Descriptor>, now: seq<Descriptor>, lo: nat, hi: nat, i: nat, j: nat)
    requires lo <= i < hi <= |was| && lo <= j < hi && PermutedIn(was, now, lo, hi)
    ensures PermutedIn(was, now[i := now[j]][j := now[i]], lo, hi)
  {
    SwapPermutes(now, i, j, lo, hi);
    PermutedTwice(was, now, now[i := now[j]][j := now[i]], lo, hi);
  }

  lemma PartitionMove(was: seq<Descriptor>, now: seq<Descriptor>, start: nat, limit: nat, front: seq<Descriptor>,
        j: nat)
    requires Partitioning(was, now, start, limit, front, j) && j < limit
    ensures Partitioning(was, now[start + |front| := now[j]][j := now[start + |front|]], start, limit,
      front + [now[j]], j + 1)
  {
    SwapStands(now, start, front, j);
    SwapUntouched(was, now, start + |front|, j);
    SwapAtLeast(now, start + |front|, j, was[limit].physicalBase);
  }

  /** The outcome of a partition: the smaller elements in their old order, the pivot, the rest. */
  ghost predicate Partitioned(was: seq<Descriptor>, now: seq<Descriptor>, start: nat, limit: nat,
        front: seq<Descriptor>, pi: nat) {
    && pi == start + |front| <= limit < |was| == |now|
    && Stands(now, start, front)
    && now[pi] == was[limit]
    && AtLeast(now, pi + 1, limit + 1, was[limit].physicalBase)
  }

  lemma PartitionEnd(was: seq<Descriptor>, now: seq<Descriptor>, start: nat, limit: nat, front: seq<Descriptor>)
    requires Partitioning(was, now, start, limit, front, limit)
    ensures Partitioned(was, now[start + |front| := now[limit]][limit := now[start + |front|]], start, limit, front,
      start + |front|)
  {
    SwapStands(now, start, front, limit);
    SwapAtLeast(now, start + |front|, limit, was[limit].physicalBase);
  }

  /** What the partition loop keeps. */
  ghost predicate Ongoing(was: seq<Descriptor>, now: seq<Descriptor>, start: nat, limit: nat, front: seq<Descriptor>,
        j: nat) {
    && Partitioning(was, now, start, limit, front, j)
    && PermutedIn(was, now, start, limit + 1)
    && front == Smaller(was, start, j, was[limit].physicalBase)
  }

  lemma OngoingMove(was: seq<Descriptor>, now: seq<Descriptor>, start: nat, limit: nat, front: seq<Descriptor>, j: nat)
    requires Ongoing(was, now, start, limit, front, j) && j < limit
    requires now[j].physicalBase < was[limit].physicalBase
    ensures Ongoing(was, now[start + |front| := now[j]][j := now[start + |front|]], start, limit, front + [now[j]],
      j + 1)
  {
    Permutes(was, now, start, limit + 1, start + |front|, j);
    PartitionMove(was, now, start, limit, front, j);
  }

  lemma OngoingKeep(was: seq<Descriptor>, now: seq<Descriptor>, start: nat, limit: nat, front: seq<Descriptor>, j: nat)
    requires Ongoing(was, now, start, limit, front, j) && j < limit
    requires now[j].physicalBase >= was[limit].physicalBase
    ensures Ongoing(was, now, start, limit, front, j + 1)
  {
  }

  /** One round of the partition loop. */
  method PartitionRound(a: array<Descriptor>, start: nat, limit: nat, i: int, j: nat, pivot: nat,
      ghost was: seq<Descriptor>, ghost front: seq<Descriptor>)
    returns (i': int, ghost front': seq<Descriptor>)
    requires i + 1 == start + |front| && j < limit < a.Length && Ongoing(was, a[..], start, limit, front, j)
    requires pivot == was[limit].physicalBase
    modifies a
    ensures i' + 1 == start + |front'| && Ongoing(was, a[..], start, limit, front', j + 1)
  {
    i', front' := i, front;
    if a[j].physicalBase < pivot {
      OngoingMove(was, a[..], start, limit, front, j);
      front' := front + [a[j]];
      i' := i + 1;
      Swap(a, i', j);
    } else {
      OngoingKeep(was, a[..], start, limit, front, j);
    }
  }

  /** KrPartDescarray. `i` is signed and starts one below `start`. */
  method Partition(a: array<Descriptor>, start: nat, limit: nat) returns (pi: nat)
    requires start <= limit < a.Length
    modifies a
    ensures PermutedIn(old(a[..]), a[..], start, limit + 1)
    ensures Partitioned(old(a[..]), a[..], start, limit,
                        Smaller(old(a[..]), start, limit, old(a[limit]).physicalBase), pi)
  {
    ghost var was, front := a[..], [];
    var pivot := a[limit].physicalBase;
    var i: int := start - 1;
    var j := start;
    while j < limit
      invariant start <= j <= limit && i + 1 == start + |front|
      invariant Ongoing(was, a[..], start, limit, front, j)
    {
      i, front := PartitionRound(a, start, limit, i, j, pivot, was, front);
      j := j + 1;
    }
    Permutes(was, a[..], start, limit + 1, start + |front|, limit);
    PartitionEnd(was, a[..], start, limit, front);
    Swap(a, i + 1, limit);
    return i + 1;
  }

  lemma {:induction false} BagMember(s: seq<Descriptor>, lo: nat, hi: nat, x: Descriptor)
    requires hi <= |s| && x in Bag(s, lo, hi)
    ensures exists k :: lo <= k < hi && s[k] == x
  {
    if x != s[hi - 1] { BagMember(s, lo, hi - 1, x); }
  }

  lemma {:induction false} BagHas(s: seq<Descriptor>, lo: nat, hi: nat, k: nat)
    requires lo <= k < hi <= |s|
    ensures s[k] in Bag(s, lo, hi)
  {
    if k < hi - 1 { BagHas(s, lo, hi - 1, k); }
  }

  /** A permuted element was somewhere in the permuted part before. */
  lemma CameFrom(was: seq<Descriptor>, now: seq<Descriptor>, lo: nat, hi: nat, k: nat) returns (k': nat)
    requires lo <= k < hi <= |was| && PermutedIn(was, now, lo, hi)
    ensures lo <= k' < hi && was[k'] == now[k]
  {
    BagHas(now, lo, hi, k);
    BagMember(was, lo, hi, now[k]);
    k' :| lo <= k' < hi && was[k'] == now[k];
  }

  ghost predicate InOrder(s: seq<Descriptor>, i: nat, j: nat) {
    i < |s| && j < |s| && s[i].physicalBase <= s[j].physicalBase
  }

  ghost predicate SortedIn(s: seq<Descriptor>, lo: nat, hi: nat) {
    forall i: nat, j: nat {:trigger InOrder(s, i, j)} | lo <= i < j < hi <= |s| :: InOrder(s, i, j)
  }

  /** Only pairs inside [start, end) may still be out of order. */
  ghost predicate Settled(s: seq<Descriptor>, lo: nat, hi: nat, start: nat, end: nat) {
    forall i: nat, j: nat {:trigger InOrder(s, i, j)} | lo <= i < j < hi <= |s| && (i < start || end <= j) ::
      InOrder(s, i, j)
  }

  /** Nothing before `pi` is above the element there, nothing after it is below. */
  ghost predicate SplitAt(s: seq<Descriptor>, start: nat, pi: nat, end: nat) {
    && start <= pi < end <= |s|
    && (forall i {:trigger s[i]} | start <= i < pi :: s[i].physicalBase <= s[pi].physicalBase)
    && (forall j {:trigger s[j]} | pi < j < end :: s[pi].physicalBase <= s[j].physicalBase)
  }

  lemma SettledPermuted(was: seq<Descriptor>, now: seq<Descriptor>, lo: nat, hi: nat, start: nat, end: nat)
    requires lo <= start <= end <= hi <= |was| && PermutedIn(was, now, start, end)
    requires Settled(was, lo, hi, start, end)
    ensures Settled(now, lo, hi, start, end)
  {
    forall i: nat, j: nat | lo <= i < j < hi && (i < start || end <= j) ensures InOrder(now, i, j) {
      var i' := i;
      var j' := j;
      if start <= i < end { i' := CameFrom(was, now, start, end, i); }
      if start <= j < end { j' := CameFrom(was, now, start, end, j); }
      assert InOrder(was, i', j');
    }
  }

  lemma SplitPermuted(was: seq<Descriptor>, now: seq<Descriptor>, start: nat, pi: nat, end: nat, lo: nat, hi: nat)
    requires SplitAt(was, start, pi, end) && lo <= hi <= |was| && PermutedIn(was, now, lo, hi)
    requires (lo == start && hi == pi) || (lo == pi + 1 && hi == end)
    ensures SplitAt(now, start, pi, end)
  {
    forall i | lo <= i < hi ensures exists k :: lo <= k < hi && was[k] == now[i] {
      var k := CameFrom(was, now, lo, hi, i);
    }
  }

  /** The sort has so far only permuted [lo, hi), and only [start, end) is left to sort. */
  ghost predicate Progress(was: seq<Descriptor>, now: seq<Descriptor>, lo: nat, hi: nat, start: nat, end: nat) {
    && lo <= start <= end <= hi <= |was|
    && PermutedIn(was, now, lo, hi)
    && Settled(now, lo, hi, start, end)
  }

  lemma Permuted(was: seq<Descriptor>, now: seq<Descriptor>, next: seq<Descriptor>, lo: nat, hi: nat, start: nat,
        end: nat)
    requires Progress(was, now, lo, hi, start, end) && PermutedIn(now, next, start, end)
    ensures Progress(was, next, lo, hi, start, end)
  {
    PermutedWider(now, next, start, end, lo, hi);
    PermutedTwice(was, now, next, lo, hi);
    SettledPermuted(now, next, lo, hi, start, end);
  }

  lemma SettledLeft(s: seq<Descriptor>, lo: nat, hi: nat, start: nat, pi: nat, end: nat)
    requires Settled(s, lo, hi, start, end) && SplitAt(s, start, pi, end) && SortedIn(s, start, pi)
    ensures Settled(s, lo, hi, pi + 1, end)
  {
    forall i: nat, j: nat | lo <= i < j < hi <= |s| && (i < pi + 1 || end <= j) ensures InOrder(s, i, j) {
      if start <= i && j < end {
        assert s[i].physicalBase <= s[pi].physicalBase;
        assert j > pi ==> s[pi].physicalBase <= s[j].physicalBase;
      }
    }
  }

  lemma SettledRight(s: seq<Descriptor>, lo: nat, hi: nat, start: nat, pi: nat, end: nat)
    requires Settled(s, lo, hi, start, end) && SplitAt(s, start, pi, end) && SortedIn(s, pi + 1, end)
    ensures Settled(s, lo, hi, start, pi)
  {
    forall i: nat, j: nat | lo <= i < j < hi <= |s| && (i < start || pi <= j) ensures InOrder(s, i, j) {
      if start <= i && j < end {
        assert s[pi].physicalBase <= s[j].physicalBase;
        assert i < pi ==> s[i].physicalBase <= s[pi].physicalBase;
      }
    }
  }

  lemma LeftSorted(was: seq<Descriptor>, mid: seq<Descriptor>, now: seq<Descriptor>, lo: nat, hi: nat, start: nat,
        pi: nat, end: nat)
    requires Progress(was, mid, lo, hi, start, end) && SplitAt(mid, start, pi, end)
    requires PermutedIn(mid, now, start, pi) && SortedIn(now, start, pi)
    ensures Progress(was, now, lo, hi, pi + 1, end)
  {
    PermutedWider(mid, now, start, pi, start, end);
    Permuted(was, mid, now, lo, hi, start, end);
    SplitPermuted(mid, now, start, pi, end, start, pi);
    SettledLeft(now, lo, hi, start, pi, end);
  }

  lemma RightSorted(was: seq<Descriptor>, mid: seq<Descriptor>, now: seq<Descriptor>, lo: nat, hi: nat, start: nat,
        pi: nat, end: nat)
    requires Progress(was, mid, lo, hi, start, end) && SplitAt(mid, start, pi, end)
    requires PermutedIn(mid, now, pi + 1, end) && SortedIn(now, pi + 1, end)
    ensures Progress(was, now, lo, hi, start, pi)
  {
    PermutedWider(mid, now, pi + 1, end, start, end);
    Permuted(was, mid, now, lo, hi, start, end);
    SplitPermuted(mid, now, start, pi, end, pi + 1, end);
    SettledRight(now, lo, hi, start, pi, end);
  }

  ghost function Pow2(n: nat): nat {
    if n == 0 then 1 else 2 * Pow2(n - 1)
  }

  lemma PartitionedSplits(was: seq<Descriptor>, now: seq<Descriptor>, start: nat, limit: nat, pi: nat)
    requires start <= limit < |was|
    requires Partitioned(was, now, start, limit, Smaller(was, start, limit, was[limit].physicalBase), pi)
    ensures SplitAt(now, start, pi, limit + 1)
  {
    SmallerBelow(was, start, limit, was[limit].physicalBase);
  }

  /** A stretch from index 0 is safe when its left part is neither empty nor unsafe. */
  lemma SafeStep(was: seq<Descriptor>, now: seq<Descriptor>, limit: nat, pi: nat)
    requires 0 < limit < |was|
    requires Partitioned(was, now, 0, limit, Smaller(was, 0, limit, was[limit].physicalBase), pi)
    ensures Safe(was[..limit + 1]) <==> pi > 0 && Safe(now[..pi])
  {
    SmallerPrefix(was, 0, limit, limit + 1, was[limit].physicalBase);
    assert now[..pi] == LeftOf(was[..limit + 1]);
  }

  /** Whether the sort of [start, limit] stays inside the array. */
  ghost predicate Sortable(s: seq<Descriptor>, start: nat, limit: nat) {
    start > 0 || (limit < |s| && Safe(s[..limit + 1]))
  }

  /** Partitions [start, limit]; says what that means for the rest of the sort. */
  method Divide(a: array<Descriptor>, start: nat, limit: nat, ghost was: seq<Descriptor>, ghost lo: nat, ghost hi: nat)
    returns (pi: nat)
    requires start < limit < a.Length && Progress(was, a[..], lo, hi, start, limit + 1)
    modifies a
    ensures start <= pi <= limit && Progress(was, a[..], lo, hi, start, limit + 1)
    ensures SplitAt(a[..], start, pi, limit + 1)
    ensures Sortable(old(a[..]), start, limit) <==> pi > 0 && Sortable(a[..], start, pi - 1)
  {
    ghost var before := a[..];
    pi := Partition(a, start, limit);
    PartitionedSplits(before, a[..], start, limit, pi);
    Permuted(was, before, a[..], lo, hi, start, limit + 1);
    if start == 0 { SafeStep(before, a[..], limit, pi); }
  }

  /** KrQuicksortMemmap. `ok` is false when `pi - 1` wraps below zero, so that the real sort
      would leave the array. `levels` counts the nested calls. */
  method Quicksort(a: array<Descriptor>, start: nat, limit: nat) returns (ok: bool, ghost levels: nat)
    requires start <= limit + 1 <= a.Length
    modifies a
    ensures ok <==> Sortable(old(a[..]), start, limit)
    ensures PermutedIn(old(a[..]), a[..], start, limit + 1)
    ensures ok ==> SortedIn(a[..], start, limit + 1)
    ensures Pow2(levels) <= limit + 2 - start
    decreases limit + 1 - start, 3
  {
    ghost var was, sortable := a[..], Sortable(a[..], start, limit);
    var first, last: nat := start, limit;
    levels := 0;
    while first < last
      invariant start <= first <= last + 1 <= limit + 1
      invariant Progress(was, a[..], start, limit + 1, first, last + 1)
      invariant sortable <==> Sortable(a[..], first, last)
      invariant Pow2(levels) <= limit + 2 - start
      decreases last + 1 - first
    {
      ghost var nested;
      ok, first, last, nested := Round(a, first, last, was, start, limit + 1);
      if !ok { return; }
      if nested > levels { levels := nested; }
    }
    ok := true;
  }

  /** One round of the loop: partition, sort the smaller side, go on with the other. */
  method Round(a: array<Descriptor>, start: nat, limit: nat, ghost was: seq<Descriptor>, ghost lo: nat, ghost hi: nat)
    returns (ok: bool, start': nat, limit': nat, ghost levels: nat)
    requires start < limit < a.Length && Progress(was, a[..], lo, hi, start, limit + 1)
    modifies a
    ensures PermutedIn(was, a[..], lo, hi)
    ensures ok ==> start <= start' <= limit' + 1 <= limit + 1 && limit' - start' < limit - start
    ensures ok ==> Progress(was, a[..], lo, hi, start', limit' + 1)
    ensures Sortable(old(a[..]), start, limit) <==> ok && Sortable(a[..], start', limit')
    ensures Pow2(levels) <= limit + 2 - start
    decreases limit + 1 - start, 2
  {
    start', limit' := start, limit;
    var pi := Divide(a, start, limit, was, lo, hi);
    if pi - start < limit - pi {
      ghost var mid := a[..];
      ok, levels := SortLeft(a, start, pi, limit);
      PermutedInside(was, mid, a[..], start, pi, lo, hi);
      if ok { LeftSorted(was, mid, a[..], lo, hi, start, pi, limit + 1); }
      start' := pi + 1;
    } else {
      levels := SortAbove(a, start, pi, limit, was, lo, hi);
      ok, limit' := true, pi - 1;
    }
  }

  /** The nested call of the first branch, on the elements before the pivot. */
  method SortLeft(a: array<Descriptor>, start: nat, pi: nat, limit: nat) returns (ok: bool, ghost levels: nat)
    requires start <= pi <= limit < a.Length && pi - start < limit - pi
    modifies a
    ensures ok <==> pi > 0 && Sortable(old(a[..]), start, pi - 1)
    ensures PermutedIn(old(a[..]), a[..], start, pi) && (ok ==> SortedIn(a[..], start, pi))
    ensures Pow2(levels) <= limit + 2 - start
    decreases limit + 1 - start, 0
  {
    if pi == 0 { return false, 0; }
    ok, levels := Quicksort(a, start, pi - 1);
    levels := levels + 1;
  }

  /** The nested call of the second branch, on the elements after the pivot. */
  method SortRight(a: array<Descriptor>, start: nat, pi: nat, limit: nat) returns (ghost levels: nat)
    requires start <= pi <= limit < a.Length && pi > 0 && pi - start >= limit - pi
    modifies a
    ensures PermutedIn(old(a[..]), a[..], pi + 1, limit + 1) && SortedIn(a[..], pi + 1, limit + 1)
    ensures Sortable(a[..], start, pi - 1) <==> Sortable(old(a[..]), start, pi - 1)
    ensures Pow2(levels) <= limit + 2 - start
    decreases limit + 1 - start, 0
  {
    ghost var was := a[..];
    var ok;
    ok, levels := Quicksort(a, pi + 1, limit);
    levels := levels + 1;
    SortableKept(was, a[..], start, pi, limit + 1);
  }

  method SortAbove(a: array<Descriptor>, start: nat, pi: nat, limit: nat, ghost was: seq<Descriptor>, ghost lo: nat,
        ghost hi: nat)
    returns (ghost levels: nat)
    requires start <= pi <= limit < a.Length && pi > 0 && pi - start >= limit - pi
    requires Progress(was, a[..], lo, hi, start, limit + 1) && SplitAt(a[..], start, pi, limit + 1)
    modifies a
    ensures Progress(was, a[..], lo, hi, start, pi)
    ensures Sortable(a[..], start, pi - 1) <==> Sortable(old(a[..]), start, pi - 1)
    ensures Pow2(levels) <= limit + 2 - start
    decreases limit + 1 - start, 1
  {
    ghost var mid := a[..];
    levels := SortRight(a, start, pi, limit);
    RightSorted(was, mid, a[..], lo, hi, start, pi, limit + 1);
  }

  lemma SortableKept(was: seq<Descriptor>, now: seq<Descriptor>, start: nat, pi: nat, hi: nat)
    requires 0 < pi && pi + 1 <= hi <= |was| && PermutedIn(was, now, pi + 1, hi)
    ensures Sortable(now, start, pi - 1) <==> Sortable(was, start, pi - 1)
  {
    assert now[..pi] == was[..pi];
  }

  lemma {:induction false} BagOfSlice(s: seq<Descriptor>, lo: nat, hi: nat)
    requires lo <= hi <= |s|
    ensures Bag(s, lo, hi) == multiset(s[lo..hi])
  {
    if lo < hi {
      BagOfSlice(s, lo, hi - 1);
      assert s[lo..hi] == s[lo..hi - 1] + [s[hi - 1]];
    }
  }

  lemma WholeBag(s: seq<Descriptor>)
    ensures Bag(s, 0, |s|) == multiset(s)
  {
    BagOfSlice(s, 0, |s|);
    assert s[0..|s|] == s;
  }

  lemma WholePermuted(was: seq<Descriptor>, now: seq<Descriptor>)
    requires PermutedIn(was, now, 0, |was|)
    ensures multiset(now) == multiset(was)
  {
    WholeBag(was);
    WholeBag(now);
  }

  lemma WholeSortable(was: seq<Descriptor>)
    requires was != []
    ensures Sortable(was, 0, |was| - 1) <==> |was| == 1 || exists t, u :: LowestBefore(was, t, u)
  {
    SafeExactly(was);
    assert was[..|was|] == was;
  }

  /** The call of KrInitMemmap: the whole map. `EntryCount - 1` wraps for an empty map. */
  method SortMap(a: array<Descriptor>) returns (ok: bool, ghost levels: nat)
    modifies a
    ensures ok <==> a.Length == 1 || exists t, u :: LowestBefore(old(a[..]), t, u)
    ensures ok ==> SortedIn(a[..], 0, a.Length)
    ensures multiset(a[..]) == multiset(old(a[..]))
    ensures Pow2(levels) <= a.Length + 1
  {
    if a.Length == 0 { return false, 0; }
    ghost var was := a[..];
    WholeSortable(was);
    ok, levels := Quicksort(a, 0, a.Length - 1);
    WholePermuted(was, a[..]);
  }
}
