/** The sorted list of virtual memory regions of an address space
    (Kernel/Source/Memory/Virtmemmgmt.c). */
module Regions {

  const KERNEL_BASE := 0xFFFF_FF80_0000_0000   // KR_MAKE_VIRTUAL(511, 0, 0, 0, 0)

  /** The bits of a region's Flags; `caching` is bits 1:0. */
  datatype RegionFlags = RegionFlags(caching: nat, largePages: bool, executable: bool, readable: bool,
                                     writable: bool, guard: bool, isStatic: bool, noDivisionCheck: bool)
  {
    /** RegionPageSize. */
    function PageSize(): nat {
      if largePages then 0x20_0000 else 0x1000
    }
  }

  class Region {
    const start: nat
    const end: nat
    const flags: RegionFlags
    var prev: Region?
    var next: Region?

    constructor (start: nat, end: nat, flags: RegionFlags)
      ensures this.start == start && this.end == end && this.flags == flags
      ensures prev == null && next == null
    {
      this.start, this.end, this.flags := start, end, flags;
      prev, next := null, null;
    }

    /** VmVrangeOverlapsRegion. */
    predicate Overlaps(lo: nat, hi: nat) {
      lo < hi && lo < end && start < hi
    }
  }

  /** Regions are nonempty, in ascending order and disjoint. */
  ghost predicate Ordered(nodes: seq<Region>) {
    && (forall i | 0 <= i < |nodes| :: nodes[i].start < nodes[i].end)
    && (forall i, j | 0 <= i < j < |nodes| :: nodes[i].end <= nodes[j].start)
  }

  ghost predicate OverlapsAny(nodes: seq<Region>, lo: nat, hi: nat) {
    exists i :: 0 <= i < |nodes| && nodes[i].Overlaps(lo, hi)
  }

  /** `k` is the gap the range belongs in: everything before it ends at or below the range,
      everything from it on begins at or above. */
  ghost predicate IsGap(nodes: seq<Region>, lo: nat, hi: nat, k: nat) {
    && k <= |nodes|
    && (forall i | 0 <= i < k :: nodes[i].end <= lo)
    && (forall i | k <= i < |nodes| :: hi <= nodes[i].start)
  }

  ghost function NodeAt(nodes: seq<Region>, i: int): Region? {
    if 0 <= i < |nodes| then nodes[i] else null
  }

  /** Both link directions agree with the sequence. */
  ghost predicate Chained(nodes: seq<Region>)
    reads nodes
  {
    && (forall i, j | 0 <= i < j < |nodes| :: nodes[i] != nodes[j])
    && (forall i {:trigger nodes[i].prev} | 0 <= i < |nodes| :: nodes[i].prev == NodeAt(nodes, i - 1))
    && (forall i {:trigger nodes[i].next} | 0 <= i < |nodes| :: nodes[i].next == NodeAt(nodes, i + 1))
  }

  ghost function Inserted(nodes: seq<Region>, node: Region, k: nat): seq<Region>
    requires k <= |nodes|
  {
    nodes[..k] + [node] + nodes[k..]
  }

  /** Hook a new node between two neighbours. */
  method HookIn(ghost nodes: seq<Region>, node: Region, before: Region?, after: Region?, ghost k: nat)
    requires Chained(nodes) && node !in nodes
    requires k <= |nodes| && before == NodeAt(nodes, k) && after == NodeAt(nodes, k - 1)
    modifies nodes, node
    ensures Chained(Inserted(nodes, node, k))
  {
    if before != null {
      before.prev := node;
    }
    if after != null {
      after.next := node;
    }
    node.prev := after;
    node.next := before;
    ghost var now := Inserted(nodes, node, k);
    forall i | 0 <= i < |now|
      ensures now[i].prev == NodeAt(now, i - 1) && now[i].next == NodeAt(now, i + 1)
    {
      assert now[i] == if i < k then nodes[i] else if i == k then node else nodes[i - 1];
    }
  }

  class AddressSpace {
    const paddrRoot: nat
    var root: Region?
    var tail: Region?
    var nrRegions: nat
    ghost var nodes: seq<Region>

    /** The links, ends and count agree with the sequence of nodes. */
    ghost predicate Valid()
      reads this, nodes
    {
      && nrRegions == |nodes|
      && root == NodeAt(nodes, 0) && tail == NodeAt(nodes, |nodes| - 1)
      && Chained(nodes)
    }

    /** KrInitKrnlAddrSpace: the kernel's binary and the frame buffer, in the order of their starts. The
        end of the frame buffer is computed from the start of the binary; the list is in order only
        where that happens not to matter. */
    constructor Kernel(paddrRoot: nat, binary: nat, reserve: nat, frameBuffer: nat, size: nat)
      ensures Valid() && this.paddrRoot == paddrRoot && |nodes| == 2 && fresh(nodes[0]) && fresh(nodes[1])
      ensures var b, f := (if binary < frameBuffer then 0 else 1), (if binary < frameBuffer then 1 else 0);
        && nodes[b].start == binary && nodes[b].end == binary + reserve
        && nodes[f].start == frameBuffer && nodes[f].end == binary + size
        && nodes[b].flags == RegionFlags(0, true, true, true, false, false, true, false)
        && nodes[f].flags == RegionFlags(0, true, false, false, true, false, true, false)
      ensures Ordered(nodes) <==>
        0 < reserve && (binary + reserve <= frameBuffer < binary + size || (frameBuffer < binary && size == 0))
    {
      this.paddrRoot := paddrRoot;
      var binaryNode := new Region(binary, binary + reserve,
        RegionFlags(0, true, true, true, false, false, true, false));
      var bufferNode := new Region(frameBuffer, binary + size,
        RegionFlags(0, true, false, false, true, false, true, false));
      var first, second := binaryNode, bufferNode;
      if !(binary < frameBuffer) {
        first, second := bufferNode, binaryNode;
      }
      root, tail, nrRegions := first, second, 2;
      nodes := [first, second];
      new;
      root.next := tail;
      tail.prev := root;
    }

    /** VmLocateRegion: the first region that contains `va`. */
    method Locate(va: nat) returns (node: Region?)
      requires Valid()
      ensures node == null <==> forall i | 0 <= i < |nodes| :: !(nodes[i].start <= va < nodes[i].end)
      ensures node != null ==> node in nodes && node.start <= va < node.end
    {
      node := root;
      ghost var i := 0;
      while node != null
        invariant i <= |nodes| && node == NodeAt(nodes, i)
        invariant forall k | 0 <= k < i :: !(nodes[k].start <= va < nodes[k].end)
        decreases |nodes| - i
      {
        if node.start <= va < node.end {
          break;
        }
        node := node.next;
        i := i + 1;
      }
    }

    /** VmVrangeOverlapsAnyRegions: on an ordered list the early exit decides overlap exactly. */
    method RangeOverlapsAny(lo: nat, hi: nat) returns (r: bool)
      requires Valid() && Ordered(nodes)
      ensures r <==> OverlapsAny(nodes, lo, hi)
    {
      if lo >= hi {
        return false;
      }
      var node := root;
      ghost var i := 0;
      while node != null
        invariant i <= |nodes| && node == NodeAt(nodes, i)
        invariant forall k | 0 <= k < i :: !nodes[k].Overlaps(lo, hi)
        decreases |nodes| - i
      {
        if hi <= node.start {
          assert forall k | i <= k < |nodes| :: node.start <= nodes[k].start;
          return false;
        }
        if node.Overlaps(lo, hi) {
          return true;
        }
        node := node.next;
        i := i + 1;
      }
      return false;
    }

    /** VmFindInsertPoint. Whatever the range, a reported point is a pair of neighbours; for a
        range that overlaps nothing it is the one gap it fits in. An empty list has none. On an
        ordered list the search steps past overlapped inner regions: it refuses exactly the
        ranges that overlap the last region. */
    method FindInsertPoint(lo: nat, hi: nat) returns (found: bool, before: Region?, after: Region?, ghost k: nat)
      requires Valid()
      ensures found ==>
        lo < hi && k <= |nodes| && nodes != [] && before == NodeAt(nodes, k) && after == NodeAt(nodes, k - 1)
      ensures lo < hi && nodes != [] && Ordered(nodes) ==> (found <==> !nodes[|nodes| - 1].Overlaps(lo, hi))
      ensures found && Ordered(nodes) && !OverlapsAny(nodes, lo, hi) ==> IsGap(nodes, lo, hi, k)
    {
      found, before, after, k := false, null, null, 0;
      if lo >= hi {
        return;
      }
      var node := root;
      while node != null
        invariant k <= |nodes| && node == NodeAt(nodes, k)
        invariant Ordered(nodes) && !OverlapsAny(nodes, lo, hi) ==> forall i | 0 <= i < k :: nodes[i].end <= lo
        invariant 0 < k == |nodes| ==> lo < nodes[k - 1].end && nodes[k - 1].start < hi
        decreases |nodes| - k
      {
        assert Ordered(nodes) && !OverlapsAny(nodes, lo, hi) ==> nodes[k].end <= lo || hi <= nodes[k].start;
        if hi <= node.start {
          found, before, after := true, node, node.prev;
          return;
        }
        if lo >= node.end {
          if node.next != null && hi >= node.next.start {
            node := node.next;
            k := k + 1;
            continue;
          }
          found, after, before := true, node, node.next;
          k := k + 1;
          return;
        }
        node := node.next;
        k := k + 1;
      }
    }

    /** The checks VmAcquireRegion makes before it looks for a place. */
    predicate Admissible(lo: nat, hi: nat, flags: RegionFlags, kernelRoot: nat) {
      && lo < hi
      && (flags.noDivisionCheck || (paddrRoot == kernelRoot <==> KERNEL_BASE <= lo))
      && lo % flags.PageSize() == 0 && hi % flags.PageSize() == 0
    }

    lemma AdmissibleIs(lo: nat, hi: nat, flags: RegionFlags, kernelRoot: nat)
      ensures Admissible(lo, hi, flags, kernelRoot) <==>
        && lo < hi && (flags.noDivisionCheck || (0xFFFF_FF80_0000_0000 <= lo) == (paddrRoot == kernelRoot))
        && (flags.largePages ==> lo % 0x20_0000 == hi % 0x20_0000 == 0) && lo % 0x1000 == hi % 0x1000 == 0
    {
      LargeIsSmall(lo);
      LargeIsSmall(hi);
      assert flags.PageSize() == 0x20_0000 || flags.PageSize() == 0x1000;
    }

    /** VmAcquireRegion. `haveNode` says whether the node allocator can supply a zeroed node.
        The list stays a list whatever the range; it stays ordered exactly when the new range
        overlaps nothing. Of the overlapping ranges it refuses only those that reach into the
        last region, so a caller has to ask VmVrangeOverlapsAnyRegions first. */
    method AcquireRegion(lo: nat, hi: nat, flags: RegionFlags, kernelRoot: nat, haveNode: bool)
      returns (node: Region?, ghost k: nat)
      requires Valid()
      modifies this, nodes
      ensures Valid()
      ensures node == null ==> nodes == old(nodes) && k == 0
      ensures node != null ==>
        && haveNode && fresh(node) && lo < hi
        && node.start == lo && node.end == hi && node.flags == flags
        && k <= |old(nodes)| && nodes == Inserted(old(nodes), node, k)
      ensures node != null && Ordered(old(nodes)) ==> (Ordered(nodes) <==> !OverlapsAny(old(nodes), lo, hi))
      ensures Ordered(old(nodes)) && old(nodes) != [] ==>
        (node != null <==>
          && lo < hi && (flags.noDivisionCheck || (0xFFFF_FF80_0000_0000 <= lo) == (paddrRoot == kernelRoot))
          && (flags.largePages ==> lo % 0x20_0000 == hi % 0x20_0000 == 0) && lo % 0x1000 == hi % 0x1000 == 0
          && haveNode && !old(nodes)[|old(nodes)| - 1].Overlaps(lo, hi))
    {
      node, k := null, 0;
      AdmissibleIs(lo, hi, flags, kernelRoot);
      if !Admissible(lo, hi, flags, kernelRoot) {
        return;
      }
      var found, before, after, gap := FindInsertPoint(lo, hi);
      if !found || !haveNode {
        return;
      }
      k := gap;
      node := new Region(lo, hi, flags);
      if Ordered(nodes) {
        OrderAfterInsert(nodes, node, k);
      }
      Splice(node, before, after, k);
    }

    /** The pointer surgery of VmAcquireRegion. */
    method Splice(node: Region, before: Region?, after: Region?, ghost k: nat)
      requires Valid() && node !in nodes
      requires nodes != [] && k <= |nodes| && before == NodeAt(nodes, k) && after == NodeAt(nodes, k - 1)
      modifies this, nodes, node
      ensures Valid() && nodes == Inserted(old(nodes), node, k)
    {
      HookIn(nodes, node, before, after, k);
      if before == root {
        root := node;
      }
      if after == tail {
        tail := node;
      }
      nrRegions := nrRegions + 1;
      nodes := Inserted(nodes, node, k);
    }
  }

  lemma LargeIsSmall(x: nat)
    ensures x % 0x20_0000 == 0 ==> x % 0x1000 == 0
  {
    assert x % 0x20_0000 == 0 ==> x == 0x1000 * (0x200 * (x / 0x20_0000));
  }

  /** In the kernel's address space a region that overlaps the kernel's own is accepted, and the list is
      then out of order. */
  method InnerOverlap() returns (space: AddressSpace, node: Region?)
    ensures space.Valid() && node != null && node in space.nodes && !Ordered(space.nodes)
    ensures exists other :: other in space.nodes && other != node && other.Overlaps(node.start, node.end)
  {
    var binary := KERNEL_BASE;
    space := new AddressSpace.Kernel(0, binary, 0x20_0000, binary + 0x40_0000, 0x60_0000);
    var flags := RegionFlags(0, false, false, true, true, false, false, false);
    ghost var first, k := space.nodes[0], 0;
    assert Ordered(space.nodes);
    assert first.Overlaps(binary + 0x10_0000, binary + 0x30_0000);
    assert OverlapsAny(space.nodes, binary + 0x10_0000, binary + 0x30_0000);
    node, k := space.AcquireRegion(binary + 0x10_0000, binary + 0x30_0000, flags, 0, true);
    assert first in space.nodes && node in space.nodes;
  }

  /** Inserting a range at its gap keeps the order, and anywhere else, overlapping something, breaks it. */
  lemma OrderAfterInsert(nodes: seq<Region>, node: Region, k: nat)
    requires node.start < node.end && k <= |nodes| && Ordered(nodes)
    requires !OverlapsAny(nodes, node.start, node.end) ==> IsGap(nodes, node.start, node.end, k)
    ensures Ordered(Inserted(nodes, node, k)) <==> !OverlapsAny(nodes, node.start, node.end)
  {
    var nodes' := Inserted(nodes, node, k);
    if OverlapsAny(nodes, node.start, node.end) {
      var i :| 0 <= i < |nodes| && nodes[i].Overlaps(node.start, node.end);
      assert nodes[i] == nodes'[if i < k then i else i + 1];
      assert nodes'[k] == node;
    }
  }
}
