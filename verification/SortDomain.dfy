/** On which memory maps the quicksort of KrInitMemmap.c stays inside the array. When the first
    element of a stretch starting at index 0 turns out to be the pivot's place, `pi - 1` wraps. */
module SortDomain {
  import opened Descriptors

  /** The descriptors in [lo, hi) below `pivot`, in order. */
  ghost function Smaller(s: seq<Descriptor>, lo: nat, hi: nat, pivot: nat): seq<Descriptor>
    requires hi <= |s|
  {
    if hi <= lo then []
    else Smaller(s, lo, hi - 1, pivot) + (if s[hi - 1].physicalBase < pivot then [s[hi - 1]] else [])
  }

  /** The elements before the pivot of a stretch, once it is partitioned. */
  ghost function LeftOf(s: seq<Descriptor>): seq<Descriptor>
    requires |s| > 0
  {
    Smaller(s, 0, |s| - 1, s[|s| - 1].physicalBase)
  }

  lemma {:induction false} SmallerLength(s: seq<Descriptor>, lo: nat, hi: nat, pivot: nat)
    requires hi <= |s|
    ensures |Smaller(s, lo, hi, pivot)| <= if lo <= hi then hi - lo else 0
  {
    if lo < hi { SmallerLength(s, lo, hi - 1, pivot); }
  }

  lemma {:induction false} SmallerBelow(s: seq<Descriptor>, lo: nat, hi: nat, pivot: nat)
    requires hi <= |s|
    ensures forall k | 0 <= k < |Smaller(s, lo, hi, pivot)| :: Smaller(s, lo, hi, pivot)[k].physicalBase < pivot
  {
    if lo < hi { SmallerBelow(s, lo, hi - 1, pivot); }
  }

  lemma {:induction false} SmallerPrefix(s: seq<Descriptor>, lo: nat, hi: nat, n: nat, pivot: nat)
    requires hi <= n <= |s|
    ensures Smaller(s[..n], lo, hi, pivot) == Smaller(s, lo, hi, pivot)
  {
    if lo < hi { SmallerPrefix(s, lo, hi - 1, n, pivot); }
  }

  /** Every partition of a stretch that starts at index 0 leaves something before the pivot. */
  ghost predicate Safe(s: seq<Descriptor>)
    decreases |s|
  {
    |s| <= 1 || (SmallerLength(s, 0, |s| - 1, s[|s| - 1].physicalBase); LeftOf(s) != [] && Safe(LeftOf(s)))
  }

  /** The lowest base occurs once, and before an occurrence of the second lowest. */
  ghost predicate LowestBefore(s: seq<Descriptor>, t: nat, u: nat) {
    && t < u < |s|
    && s[t].physicalBase < s[u].physicalBase
    && forall k {:trigger s[k]} | 0 <= k < |s| && k != t :: s[u].physicalBase <= s[k].physicalBase
  }

  /** Where element `k` of Smaller(s, lo, hi, pivot) stood. */
  lemma {:induction false} PlaceOf(s: seq<Descriptor>, lo: nat, hi: nat, pivot: nat, k: nat, k': nat)
    returns (p: nat, p': nat)
    requires hi <= |s| && k < k' < |Smaller(s, lo, hi, pivot)|
    ensures lo <= p < p' < hi && s[p] == Smaller(s, lo, hi, pivot)[k] && s[p'] == Smaller(s, lo, hi, pivot)[k']
  {
    var before := Smaller(s, lo, hi - 1, pivot);
    if k' < |before| {
      p, p' := PlaceOf(s, lo, hi - 1, pivot, k, k');
    } else {
      p := SinglePlace(s, lo, hi - 1, pivot, k);
      p' := hi - 1;
    }
  }

  lemma {:induction false} SinglePlace(s: seq<Descriptor>, lo: nat, hi: nat, pivot: nat, k: nat) returns (p: nat)
    requires hi <= |s| && k < |Smaller(s, lo, hi, pivot)|
    ensures lo <= p < hi && s[p] == Smaller(s, lo, hi, pivot)[k]
  {
    if k < |Smaller(s, lo, hi - 1, pivot)| { p := SinglePlace(s, lo, hi - 1, pivot, k); } else { p := hi - 1; }
  }

  /** The element at `p`, if small enough, is in Smaller(s, lo, hi, pivot), behind those before it. */
  lemma {:induction false} RankOf(s: seq<Descriptor>, lo: nat, hi: nat, pivot: nat, p: nat) returns (k: nat)
    requires lo <= p < hi <= |s| && s[p].physicalBase < pivot
    ensures k == |Smaller(s, lo, p, pivot)| < |Smaller(s, lo, hi, pivot)| && Smaller(s, lo, hi, pivot)[k] == s[p]
  {
    if p == hi - 1 { k := |Smaller(s, lo, p, pivot)|; } else { k := RankOf(s, lo, hi - 1, pivot, p); }
  }

  lemma {:induction false} Longer(s: seq<Descriptor>, lo: nat, mid: nat, hi: nat, pivot: nat)
    requires mid <= hi <= |s|
    ensures |Smaller(s, lo, mid, pivot)| <= |Smaller(s, lo, hi, pivot)|
  {
    if mid < hi { Longer(s, lo, mid, hi - 1, pivot); }
  }

  /** A single small element is all of Smaller. */
  lemma {:induction false} OnlyOne(s: seq<Descriptor>, lo: nat, hi: nat, pivot: nat, t: nat)
    requires lo <= hi <= |s| && forall k | lo <= k < hi && k != t :: pivot <= s[k].physicalBase
    ensures |Smaller(s, lo, hi, pivot)| <= 1
    ensures hi <= t ==> Smaller(s, lo, hi, pivot) == []
  {
    if lo < hi { OnlyOne(s, lo, hi - 1, pivot, t); }
  }

  lemma {:induction false} LowestIsSafe(s: seq<Descriptor>, t: nat, u: nat)
    requires LowestBefore(s, t, u)
    ensures Safe(s)
    decreases |s|
  {
    var n, p := |s| - 1, s[|s| - 1].physicalBase;
    var t' := RankOf(s, 0, n, p, t);
    SmallerLength(s, 0, n, p);
    if s[u].physicalBase == p {
      OnlyOne(s, 0, n, p, t);
    } else {
      var u' := RankOf(s, 0, n, p, u);
      Longer(s, 0, t + 1, u, p);
      StillLowest(s, t, u, t', u');
      LowestIsSafe(LeftOf(s), t', u');
    }
  }

  lemma StillLowest(s: seq<Descriptor>, t: nat, u: nat, t': nat, u': nat)
    requires LowestBefore(s, t, u) && t' < u' < |LeftOf(s)| && LeftOf(s)[t'] == s[t] && LeftOf(s)[u'] == s[u]
    ensures LowestBefore(LeftOf(s), t', u')
  {
    var n, p := |s| - 1, s[|s| - 1].physicalBase;
    forall k | 0 <= k < |LeftOf(s)| && k != t' ensures s[u].physicalBase <= LeftOf(s)[k].physicalBase {
      var q, q' := 0, 0;
      if k < t' { q, q' := PlaceOf(s, 0, n, p, k, t'); } else { q, q' := PlaceOf(s, 0, n, p, t', k); }
    }
  }

  lemma {:induction false} SafeIsLowest(s: seq<Descriptor>) returns (t: nat, u: nat)
    requires Safe(s) && |s| > 1
    ensures LowestBefore(s, t, u)
    decreases |s|
  {
    var n, p, left := |s| - 1, s[|s| - 1].physicalBase, LeftOf(s);
    SmallerLength(s, 0, n, p);
    SmallerBelow(s, 0, n, p);
    if |left| == 1 {
      t := SinglePlace(s, 0, n, p, 0);
      u := n;
      AllOthersAbove(s, t);
    } else {
      var t', u' := SafeIsLowest(left);
      t, u := PlaceOf(s, 0, n, p, t', u');
      LowestAbove(s, t, u, t', u');
    }
  }

  /** Different small elements have different ranks. */
  lemma RanksDiffer(s: seq<Descriptor>, lo: nat, hi: nat, pivot: nat, a: nat, b: nat) returns (i: nat, j: nat)
    requires lo <= a < hi <= |s| && lo <= b < hi && a != b
    requires s[a].physicalBase < pivot && s[b].physicalBase < pivot
    ensures i < |Smaller(s, lo, hi, pivot)| && Smaller(s, lo, hi, pivot)[i] == s[a]
    ensures j < |Smaller(s, lo, hi, pivot)| && Smaller(s, lo, hi, pivot)[j] == s[b]
    ensures i != j
  {
    i := RankOf(s, lo, hi, pivot, a);
    j := RankOf(s, lo, hi, pivot, b);
    if a < b { Longer(s, lo, a + 1, b, pivot); } else { Longer(s, lo, b + 1, a, pivot); }
  }

  lemma LowestAbove(s: seq<Descriptor>, t: nat, u: nat, t': nat, u': nat)
    requires t < u < |s| - 1 && LowestBefore(LeftOf(s), t', u')
    requires LeftOf(s)[t'] == s[t] && LeftOf(s)[u'] == s[u]
    requires s[u].physicalBase < s[|s| - 1].physicalBase
    ensures LowestBefore(s, t, u)
  {
    var n, p := |s| - 1, s[|s| - 1].physicalBase;
    forall k | 0 <= k < |s| && k != t ensures s[u].physicalBase <= s[k].physicalBase {
      if k < n && s[k].physicalBase < p {
        var i, j := RanksDiffer(s, 0, n, p, k, t);
      }
    }
  }

  lemma AllOthersAbove(s: seq<Descriptor>, t: nat)
    requires |s| > 1 && t < |s| - 1 && |LeftOf(s)| == 1 && s[t] == LeftOf(s)[0]
    requires s[t].physicalBase < s[|s| - 1].physicalBase
    ensures forall k {:trigger s[k]} | 0 <= k < |s| && k != t :: s[|s| - 1].physicalBase <= s[k].physicalBase
  {
    var n, p := |s| - 1, s[|s| - 1].physicalBase;
    forall k | 0 <= k < n && k != t ensures p <= s[k].physicalBase {
      if s[k].physicalBase < p {
        var i, j := RanksDiffer(s, 0, n, p, k, t);
      }
    }
  }

  /** Exactly which maps the sort can handle: those with at most one element, and those whose
      lowest base occurs once and stands before an occurrence of the second lowest base. */
  lemma SafeExactly(s: seq<Descriptor>)
    ensures Safe(s) <==> |s| <= 1 || exists t, u :: LowestBefore(s, t, u)
  {
    if Safe(s) && |s| > 1 {
      var t, u := SafeIsLowest(s);
    }
    forall t, u | LowestBefore(s, t, u) ensures Safe(s) { LowestIsSafe(s, t, u); }
  }

  /** A map of two entries in descending order is not. */
  lemma DescendingUnsafe(high: Descriptor, low: Descriptor)
    requires low.physicalBase < high.physicalBase
    ensures !Safe([high, low])
  {
    var s := [high, low];
    assert Smaller(s, 0, 0, low.physicalBase) == [];
    assert LeftOf(s) == [];
  }

  /** In particular a map that starts with its one lowest descriptor is fine. */
  lemma LowestFirst(s: seq<Descriptor>)
    requires forall k {:trigger s[k]} | 0 < k < |s| :: s[0].physicalBase < s[k].physicalBase
    ensures Safe(s)
  {
    if |s| > 1 {
      var u := SecondLowest(s, |s|);
      LowestIsSafe(s, 0, u);
    }
  }

  lemma {:induction false} SecondLowest(s: seq<Descriptor>, n: nat) returns (u: nat)
    requires 1 < n <= |s|
    ensures 0 < u < n && forall k {:trigger s[k]} | 0 < k < n :: s[u].physicalBase <= s[k].physicalBase
  {
    u := 1;
    if n > 2 {
      u := SecondLowest(s, n - 1);
      if s[n - 1].physicalBase < s[u].physicalBase { u := n - 1; }
    }
  }
}
