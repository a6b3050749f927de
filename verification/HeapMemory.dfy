/** The bytes of the kernel heap: packed headers, back words and client data in one memory
    (Kernel/Source/Memory/Krnlheap.c). A byte remembers what was stored over it last, so a header or
    a back word can be read only where none of its bytes was overwritten. */
module HeapMemory {
  import opened HeapBlocks

  datatype Cell = HeaderByte(header: Header, index: nat) | WordByte(word: nat, index: nat) | Data(value: bv8)

  type Memory = map<nat, Cell>

  /** The byte at `a`; memory never written holds zeros. */
  function Byte(m: Memory, a: nat): Cell {
    if a in m then m[a] else Data(0)
  }

  /** All bytes of the header `x` stand at `at`. */
  ghost predicate HeaderAt(m: Memory, at: nat, x: Header) {
    forall a: nat {:trigger Byte(m, a)} | at <= a < at + HEADER_SIZE :: Byte(m, a) == HeaderByte(x, a - at)
  }

  /** Both bytes of the word `w` stand at `at`. */
  ghost predicate WordAt(m: Memory, at: nat, w: nat) {
    Byte(m, at) == WordByte(w, 0) && Byte(m, at + 1) == WordByte(w, 1)
  }

  function StoreByte(m: Memory, at: nat, c: Cell): (r: Memory)
    ensures forall a: nat {:trigger Byte(r, a)} :: Byte(r, a) == if a == at then c else Byte(m, a)
  {
    m[at := c]
  }

  /** Stores the first `n` bytes of the header. */
  function StoreBytes(m: Memory, at: nat, x: Header, n: nat): (r: Memory)
    ensures forall a: nat {:trigger Byte(r, a)} ::
      Byte(r, a) == if at <= a < at + n then HeaderByte(x, a - at) else Byte(m, a)
  {
    if n == 0 then m else StoreByte(StoreBytes(m, at, x, n - 1), at + (n - 1), HeaderByte(x, n - 1))
  }

  function StoreHeader(m: Memory, at: nat, x: Header): (r: Memory)
    ensures HeaderAt(r, at, x)
    ensures forall a: nat {:trigger Byte(r, a)} | a < at || at + HEADER_SIZE <= a :: Byte(r, a) == Byte(m, a)
  {
    StoreBytes(m, at, x, HEADER_SIZE)
  }

  function StoreWord(m: Memory, at: nat, w: nat): (r: Memory)
    ensures WordAt(r, at, w)
    ensures forall a: nat {:trigger Byte(r, a)} | a < at || at + BACK_SIZE <= a :: Byte(r, a) == Byte(m, a)
  {
    StoreByte(StoreByte(m, at, WordByte(w, 0)), at + 1, WordByte(w, 1))
  }

  function LoadHeader(m: Memory, at: nat): Header
    requires Byte(m, at).HeaderByte?
  {
    Byte(m, at).header
  }

  function LoadWord(m: Memory, at: nat): nat
    requires Byte(m, at).WordByte?
  {
    Byte(m, at).word
  }

  /** The headers of the list stand in memory. */
  ghost predicate Stored(m: Memory, v: Blocks) {
    forall h {:trigger h in v} {:trigger v[h]} | h in v :: HeaderAt(m, h, v[h])
  }

  lemma HeaderLoads(m: Memory, v: Blocks, h: nat)
    requires Stored(m, v) && h in v
    ensures Byte(m, h).HeaderByte? && LoadHeader(m, h) == v[h]
  {
    assert HeaderAt(m, h, v[h]);
  }

  /** Headers at these addresses do not overlap. */
  ghost predicate Spaced(keys: set<nat>) {
    forall j, k {:trigger j in keys, k in keys} | j in keys && k in keys && j < k :: j + HEADER_SIZE <= k
  }

  /** The byte belongs to no header at these addresses. */
  ghost predicate Off(keys: set<nat>, a: nat) {
    forall k {:trigger k in keys} | k in keys :: a < k || k + HEADER_SIZE <= a
  }

  /** Nothing but headers at these addresses was written. */
  ghost predicate Elsewhere(was: Memory, now: Memory, keys: set<nat>) {
    forall a: nat {:trigger Off(keys, a)} {:trigger Byte(now, a)} | Off(keys, a) :: Byte(now, a) == Byte(was, a)
  }

  lemma LinkedSpaced(v: Blocks)
    requires Linked(v)
    ensures Spaced(v.Keys)
  {
    forall j, k | j in v && k in v && j < k ensures j + HEADER_SIZE <= k { Apart(v, j, k); }
  }

  /** Storing a header leaves the other ones standing. */
  lemma StoreKeeps(m: Memory, v: Blocks, at: nat, x: Header, keys: set<nat>)
    requires Stored(m, v) && Spaced(keys) && v.Keys <= keys && at in keys
    ensures Stored(StoreHeader(m, at, x), v[at := x])
  {
    forall h | h in v && h != at ensures HeaderAt(StoreHeader(m, at, x), h, v[h]) {
      assert h in keys && HeaderAt(m, h, v[h]);
    }
  }

  lemma StoreElsewhere(was: Memory, m: Memory, at: nat, x: Header, keys: set<nat>)
    requires Elsewhere(was, m, keys) && at in keys
    ensures Elsewhere(was, StoreHeader(m, at, x), keys)
  {
  }

  /** A byte behind a header and before the end of its block is off all headers. */
  lemma ByteOff(v: Blocks, h: nat, a: nat)
    requires Linked(v) && h in v && h + HEADER_SIZE <= a < EndOf(v, h)
    ensures Off(v.Keys, a)
  {
    forall k | k in v.Keys ensures a < k || k + HEADER_SIZE <= a {
      if k > h { Apart(v, h, k); }
      if k < h { Apart(v, k, h); }
    }
  }

  lemma WordKept(was: Memory, now: Memory, keys: set<nat>, at: nat, w: nat)
    requires WordAt(was, at, w) && Elsewhere(was, now, keys) && Off(keys, at) && Off(keys, at + 1)
    ensures WordAt(now, at, w)
  {
  }

  /** One byte that belongs to no header leaves the headers alone. */
  lemma ByteKeepsHeaders(m: Memory, v: Blocks, at: nat, c: Cell)
    requires Stored(m, v) && Off(v.Keys, at)
    ensures Stored(StoreByte(m, at, c), v)
  {
    forall h | h in v ensures HeaderAt(StoreByte(m, at, c), h, v[h]) {
      assert HeaderAt(m, h, v[h]) && h in v.Keys;
    }
  }

  lemma WordKeepsHeaders(m: Memory, v: Blocks, h: nat, at: nat, w: nat)
    requires Stored(m, v) && Linked(v) && h in v && h + HEADER_SIZE <= at && at + BACK_SIZE <= EndOf(v, h)
    ensures Stored(StoreWord(m, at, w), v)
  {
    ByteOff(v, h, at);
    ByteOff(v, h, at + 1);
    ByteKeepsHeaders(m, v, at, WordByte(w, 0));
    ByteKeepsHeaders(StoreByte(m, at, WordByte(w, 0)), v, at + 1, WordByte(w, 1));
  }
}
