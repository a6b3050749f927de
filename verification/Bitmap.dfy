/** One bit per physical page, eight pages a byte, and the range setter that
    writes such a bitmap (Kernel/Source/Memory/Physmemmgmt.c). */
module Bitmap {

  /** The byte `1 << k`. */
  function Mask(k: nat): bv8
    requires k < 8
  {
    match k
    case 0 => 1 case 1 => 2 case 2 => 4 case 3 => 8
    case 4 => 16 case 5 => 32 case 6 => 64 case 7 => 128
  }

  predicate Bit(b: bv8, k: nat)
    requires k < 8
  {
    b & Mask(k) != 0
  }

  /** The bit with the weight 2^k: shifted down to the lowest place, it is what is left there. */
  lemma BitPlace(b: bv8, k: nat)
    requires k < 8
    ensures Bit(b, k) <==> (b >> k) & 1 == 1
  {
    match k
    case 0 => case 1 => case 2 => case 3 => case 4 => case 5 => case 6 => case 7 =>
  }

  /** `b |= 1 << k` or `b &= ~(1 << k)`. */
  function WithBit(b: bv8, k: nat, status: bool): (r: bv8)
    requires k < 8
    ensures forall j | 0 <= j < 8 :: Bit(r, j) == if j == k then status else Bit(b, j)
  {
    if status then b | Mask(k) else b & !Mask(k)
  }

  function Fill(status: bool): (r: bv8)
    ensures forall j | 0 <= j < 8 :: Bit(r, j) == status
  {
    if status then 0xFF else 0
  }

  predicate PageBit(bits: seq<bv8>, id: nat)
    requires id / 8 < |bits|
  {
    Bit(bits[id / 8], id % 8)
  }

  /** `now` is `was` with the bits of the pages in [lo, hi) set to `status`. */
  ghost predicate Painted(was: seq<bv8>, now: seq<bv8>, lo: nat, hi: nat, status: bool) {
    && |now| == |was|
    && forall id: nat | id / 8 < |was| ::
         PageBit(now, id) == if lo <= id < hi then status else PageBit(was, id)
  }

  /** Writing one byte moves the painted front to the end of the bits that byte changed. */
  lemma PaintByte(was: seq<bv8>, now: seq<bv8>, lo: nat, hi: nat, hi': nat, status: bool, b: bv8)
    requires Painted(was, now, lo, hi, status)
    requires lo <= hi <= hi' <= 8 * (hi / 8 + 1) && hi / 8 < |was|
    requires forall k | 0 <= k < 8 ::
      Bit(b, k) == if hi <= 8 * (hi / 8) + k < hi' then status else Bit(now[hi / 8], k)
    ensures Painted(was, now[hi / 8 := b], lo, hi', status)
  {
    var r := now[hi / 8 := b];
    forall id: nat | id / 8 < |was|
      ensures PageBit(r, id) == if lo <= id < hi' then status else PageBit(was, id)
    {
      assert PageBit(now, id) == if lo <= id < hi then status else PageBit(was, id);
      if id / 8 == hi / 8 {
        assert Bit(b, id % 8) == if hi <= 8 * (hi / 8) + id % 8 < hi' then status else Bit(now[hi / 8], id % 8);
      }
    }
  }

  /** The 8, 16, 32 and 64 bit stores: `width` equal bytes at a byte boundary. */
  method StoreWide(bits: array<bv8>, at: nat, width: nat, status: bool, ghost was: seq<bv8>, ghost lo: nat)
    requires at + width <= bits.Length
    requires lo <= 8 * at
    requires Painted(was, bits[..], lo, 8 * at, status)
    modifies bits
    ensures Painted(was, bits[..], lo, 8 * (at + width), status)
  {
    var k := 0;
    while k < width
      invariant k <= width
      invariant Painted(was, bits[..], lo, 8 * (at + k), status)
    {
      ghost var before := bits[..];
      bits[at + k] := Fill(status);
      assert bits[..] == before[at + k := Fill(status)];
      PaintByte(was, before, lo, 8 * (at + k), 8 * (at + k + 1), status, Fill(status));
      k := k + 1;
    }
  }

  /** Set the bits `offset .. offset + n` of one byte, stopping at the end of the byte. */
  method PaintBits(value: bv8, offset: nat, n: nat, status: bool) returns (r: bv8, done: nat)
    requires offset < 8
    ensures done == if n < 8 - offset then n else 8 - offset
    ensures forall k | 0 <= k < 8 ::
      Bit(r, k) == if offset <= k < offset + done then status else Bit(value, k)
  {
    r, done := value, 0;
    while offset + done < 8 && done < n
      invariant done <= n && offset + done <= 8
      invariant forall k | 0 <= k < 8 ::
        Bit(r, k) == if offset <= k < offset + done then status else Bit(value, k)
    {
      r := WithBit(r, offset + done, status);
      done := done + 1;
    }
  }

  /** Repeats one width of bulk store while at least `8 * width` pages remain. */
  method PaintBulk(bits: array<bv8>, at: nat, n: nat, width: nat, status: bool, ghost was: seq<bv8>, ghost lo: nat)
    returns (at': nat, n': nat)
    requires 0 < width
    requires lo <= 8 * at && 8 * at + n <= 8 * bits.Length
    requires Painted(was, bits[..], lo, 8 * at, status)
    modifies bits
    ensures at <= at' && 8 * at' + n' == 8 * at + n && n' < 8 * width
    ensures Painted(was, bits[..], lo, 8 * at', status)
  {
    at', n' := at, n;
    while n' >= 8 * width
      invariant at <= at' && 8 * at' + n' == 8 * at + n
      invariant Painted(was, bits[..], lo, 8 * at', status)
    {
      StoreWide(bits, at', width, status, was, lo);
      at', n' := at' + width, n' - 8 * width;
    }
  }

  /** The unaligned head or tail: read one byte, set part of it, write it back. */
  method PaintPartial(bits: array<bv8>, current: nat, left: nat, status: bool, ghost was: seq<bv8>, ghost lo: nat)
    returns (done: nat)
    requires lo <= current && current / 8 < bits.Length
    requires Painted(was, bits[..], lo, current, status)
    modifies bits
    ensures done == if left < 8 - current % 8 then left else 8 - current % 8
    ensures Painted(was, bits[..], lo, current + done, status)
  {
    ghost var before := bits[..];
    var value;
    value, done := PaintBits(bits[current / 8], current % 8, left, status);
    bits[current / 8] := value;
    assert bits[..] == before[current / 8 := value];
    PaintByte(was, before, lo, current, current + done, status, value);
  }

  /** From a byte boundary on: the four bulk loops, widest first, then the tail. */
  method PaintAligned(bits: array<bv8>, start: nat, n: nat, status: bool, ghost was: seq<bv8>, ghost lo: nat)
    requires lo <= 8 * start && 8 * start + n <= 8 * bits.Length
    requires Painted(was, bits[..], lo, 8 * start, status)
    modifies bits
    ensures Painted(was, bits[..], lo, 8 * start + n, status)
  {
    var at, left := PaintBulk(bits, start, n, 8, status, was, lo);
    at, left := PaintBulk(bits, at, left, 4, status, was, lo);
    at, left := PaintBulk(bits, at, left, 2, status, was, lo);
    at, left := PaintBulk(bits, at, left, 1, status, was, lo);
    if left > 0 {
      var _ := PaintPartial(bits, 8 * at, left, status, was, lo);
    }
  }

  /** KrSetPhysicalPageStatus: unaligned head, bulk stores, unaligned tail. The 64-bit sum
      `idStart + n` is required not to wrap. */
  method SetPageStatus(bits: array<bv8>, nrPages: nat, idStart: nat, n: nat, status: bool) returns (ok: bool)
    requires bits.Length == (nrPages + 7) / 8
    requires idStart + n < 0x1_0000_0000_0000_0000
    modifies bits
    ensures ok == (idStart + n <= nrPages)
    ensures !ok ==> bits[..] == old(bits[..])
    ensures ok ==> Painted(old(bits[..]), bits[..], idStart, idStart + n, status)
  {
    if idStart + n > nrPages {
      return false;
    }
    ghost var was := bits[..];
    var done := 0;
    if idStart % 8 != 0 {
      done := PaintPartial(bits, idStart, n, status, was, idStart);
    }
    if done < n {
      PaintAligned(bits, (idStart + done) / 8, n - done, status, was, idStart);
    }
    return true;
  }
}
