/** The table-driven CRC-32 of the image tool (Tools/Imgtool/Source/Imgtool.c) and the bitwise
    CRC-32 of section 8 of RFC 1952. */
module Crc {
  const POLYNOMIAL: bv32 := 0xEDB88320

  /** One step of the division: shift out the lowest bit, subtract the polynomial if it was set. */
  function Shift(crc: bv32): bv32 {
    if crc & 1 == 1 then (crc >> 1) ^ POLYNOMIAL else crc >> 1
  }

  function Iterate<T>(step: T -> T, start: T, n: nat): T {
    if n == 0 then start else step(Iterate(step, start, n - 1))
  }

  /** The register after some inputs went in one at a time. */
  ghost function Feed<T, B>(step: (T, B) -> T, start: T, inputs: seq<B>): T
    decreases |inputs|
  {
    if inputs == [] then start else Feed(step, step(start, inputs[0]), inputs[1..])
  }

  ghost function BitStep(crc: bv32, bit: bv32): bv32 {
    Shift(crc ^ bit)
  }

  function Low(x: bv32): bv32 { x & 1 }

  function Half(x: bv32): bv32 { x >> 1 }

  ghost function LowBits<T, B>(low: T -> B, half: T -> T, y: T, n: nat): seq<B> {
    if n == 0 then [] else [low(y)] + LowBits(low, half, half(y), n - 1)
  }

  /** The bits of a byte, lowest first. */
  ghost function BitsOf(b: bv8): seq<bv32> {
    LowBits(Low, Half, b as bv32, 8)
  }

  ghost function AllBits(data: seq<bv8>): seq<bv32> {
    if data == [] then [] else AllBits(data[..|data| - 1]) + BitsOf(data[|data| - 1])
  }

  /** CRC-32: register preset to ones, one bit at a time, complemented at the end. */
  ghost function Crc32(data: seq<bv8>): bv32 {
    Feed(BitStep, 0xFFFF_FFFF, AllBits(data)) ^ 0xFFFF_FFFF
  }

  // ---- Steps over any register ----

  lemma {:induction false} IterateLinear<T(!new)>(step: T -> T, op: (T, T) -> T, x: T, y: T, n: nat)
    requires forall a, b :: step(op(a, b)) == op(step(a), step(b))
    ensures Iterate(step, op(x, y), n) == op(Iterate(step, x, n), Iterate(step, y, n))
  {
    if n > 0 { IterateLinear(step, op, x, y, n - 1); }
  }

  lemma {:induction false} IterateFirst<T>(step: T -> T, start: T, n: nat)
    ensures Iterate(step, step(start), n) == Iterate(step, start, n + 1)
  {
    if n > 0 { IterateFirst(step, start, n - 1); }
  }

  lemma {:induction false} FeedJoin<T, B>(step: (T, B) -> T, start: T, a: seq<B>, b: seq<B>)
    ensures Feed(step, start, a + b) == Feed(step, Feed(step, start, a), b)
    decreases |a|
  {
    if a == [] {
      assert a + b == b;
    } else {
      assert (a + b)[1..] == a[1..] + b;
      FeedJoin(step, step(start, a[0]), a[1..], b);
    }
  }

  /** When a step on a mix depends on the mixed-in value's lowest bit alone and halves the rest,
      mixing in first and stepping `n` times is feeding `n` bits. */
  lemma {:induction false} MixedIn<T(!new), B(!new)>(step: T -> T, bitStep: (T, B) -> T, mix: (T, T) -> T,
                                               low: T -> B, half: T -> T, start: T, y: T, n: nat)
    requires forall a, b :: step(mix(a, b)) == mix(bitStep(a, low(b)), half(b))
    ensures Iterate(step, mix(start, y), n) == mix(Feed(bitStep, start, LowBits(low, half, y, n)), Iterate(half, y, n))
    decreases n
  {
    if n > 0 {
      IterateFirst(step, mix(start, y), n - 1);
      IterateFirst(half, y, n - 1);
      MixedIn(step, bitStep, mix, low, half, bitStep(start, low(y)), half(y), n - 1);
      assert LowBits(low, half, y, n)[1..] == LowBits(low, half, half(y), n - 1);
    }
  }

  // ---- The step of CRC-32 ----

  function Xor(x: bv32, y: bv32): bv32 { x ^ y }

  lemma ShiftLinear(x: bv32, y: bv32)
    ensures Shift(x ^ y) == Shift(x) ^ Shift(y)
  {
    XorShift(x, y);
    XorOdd(x, y);
    XorPolynomial(x >> 1, y >> 1);
  }

  lemma XorShift(x: bv32, y: bv32)
    ensures (x ^ y) >> 1 == (x >> 1) ^ (y >> 1)
  {
  }

  lemma XorOdd(x: bv32, y: bv32)
    ensures (x ^ y) & 1 == 1 <==> (x & 1 == 1) != (y & 1 == 1)
  {
  }

  lemma XorPolynomial(x: bv32, y: bv32)
    ensures (x ^ y) ^ POLYNOMIAL == (x ^ POLYNOMIAL) ^ y == x ^ (y ^ POLYNOMIAL)
    ensures x ^ y == (x ^ POLYNOMIAL) ^ (y ^ POLYNOMIAL)
  {
  }

  /** Only the lowest bit decides what a step subtracts; the others move down. */
  lemma ShiftPeels(mixed: bv32, crc: bv32, y: bv32)
    requires mixed == crc ^ y
    ensures Shift(mixed) == Shift(crc ^ (y & 1)) ^ (y >> 1)
  {
    var even := y & 0xFFFF_FFFE;
    SplitLow(crc, y);
    EvenPeels(mixed, crc ^ (y & 1), y, even);
  }

  lemma SplitLow(crc: bv32, y: bv32)
    ensures crc ^ y == (crc ^ (y & 1)) ^ (y & 0xFFFF_FFFE)
  {
  }

  lemma EvenPeels(mixed: bv32, crc: bv32, y: bv32, even: bv32)
    requires mixed == crc ^ even && even == y & 0xFFFF_FFFE
    ensures Shift(mixed) == Shift(crc) ^ (y >> 1)
  {
    ShiftLinear(crc, even);
    EvenDown(y, even);
  }

  lemma EvenDown(y: bv32, even: bv32)
    requires even == y & 0xFFFF_FFFE
    ensures Shift(even) == y >> 1
  {
  }

  /** A clear low byte is only shifted out. */
  lemma EightDown(y: bv32)
    requires y & 0xFF == 0
    ensures Iterate(Shift, y, 8) == y >> 8
  {
    assert y >> 8 == (y >> 4) >> 4;
    FourDown(y);
    FourDown(y >> 4);
    assert Iterate(Shift, y, 8) == Iterate(Shift, Iterate(Shift, y, 4), 4);
  }

  lemma FourDown(y: bv32)
    requires y & 0xF == 0
    ensures Iterate(Shift, y, 4) == y >> 4
  {
    assert Iterate(Shift, y, 1) == y >> 1;
    assert Iterate(Shift, y, 2) == y >> 2;
    assert Iterate(Shift, y, 3) == y >> 3;
  }

  lemma AllHalved(y: bv32)
    requires y & 0xFFFFFF00 == 0
    ensures Iterate(Half, y, 8) == 0
  {
    assert Iterate(Half, y, 1) == y >> 1;
    assert Iterate(Half, y, 2) == y >> 2;
    assert Iterate(Half, y, 3) == y >> 3;
    assert Iterate(Half, y, 4) == y >> 4;
    assert Iterate(Half, y, 5) == y >> 5;
    assert Iterate(Half, y, 6) == y >> 6;
    assert Iterate(Half, y, 7) == y >> 7;
  }

  // ---- A byte at a time ----

  lemma StepPeels(crc: bv32, y: bv32)
    ensures Shift(Xor(crc, y)) == Xor(BitStep(crc, Low(y)), Half(y))
  {
    NamedPeels(Xor(crc, y), BitStep(crc, Low(y)), crc, y);
  }

  lemma NamedPeels(mixed: bv32, stepped: bv32, crc: bv32, y: bv32)
    requires mixed == crc ^ y && stepped == Shift(crc ^ (y & 1))
    ensures Shift(mixed) == stepped ^ (y >> 1)
  {
    ShiftPeels(mixed, crc, y);
  }

  lemma EightMixed(crc: bv32, y: bv32)
    ensures Iterate(Shift, Xor(crc, y), 8) == Xor(Feed(BitStep, crc, LowBits(Low, Half, y, 8)), Iterate(Half, y, 8))
  {
    forall a, b ensures Shift(Xor(a, b)) == Xor(BitStep(a, Low(b)), Half(b)) { StepPeels(a, b); }
    MixedIn(Shift, BitStep, Xor, Low, Half, crc, y, 8);
  }

  /** Feeding a byte bit by bit is mixing it in and stepping eight times. */
  lemma ByteStep(crc: bv32, b: bv8)
    ensures Feed(BitStep, crc, BitsOf(b)) == Iterate(Shift, Xor(crc, b as bv32), 8)
  {
    EightMixed(crc, b as bv32);
    AllHalved(b as bv32);
    XorZero(Feed(BitStep, crc, BitsOf(b)));
  }

  lemma XorZero(x: bv32)
    ensures Xor(x, 0) == x
  {
  }

  function Byte(x: bv32): bv32 { x & 0xFF }

  function Rest(x: bv32): bv32 { x >> 8 }

  lemma EightLinear(x: bv32, y: bv32)
    ensures Iterate(Shift, Xor(x, y), 8) == Xor(Iterate(Shift, x, 8), Iterate(Shift, y, 8))
  {
    forall a, b ensures Shift(Xor(a, b)) == Xor(Shift(a), Shift(b)) { ShiftLinear(a, b); }
    IterateLinear(Shift, Xor, x, y, 8);
  }

  /** Eight steps at once: the low byte alone decides what is subtracted. */
  lemma TableStep(x: bv32)
    ensures Iterate(Shift, x, 8) == Xor(Rest(x), Iterate(Shift, Byte(x), 8))
  {
    LowByte(x);
    EightLinear(x & 0xFFFF_FF00, Byte(x));
    EightDown(x & 0xFFFF_FF00);
  }

  lemma LowByte(x: bv32)
    ensures x == Xor(x & 0xFFFF_FF00, Byte(x)) && (x & 0xFFFF_FF00) >> 8 == Rest(x) && x & 0xFFFF_FF00 & 0xFF == 0
  {
  }

  lemma RestKept(crc: bv32, b: bv8)
    ensures Rest(Xor(crc, b as bv32)) == Rest(crc)
  {
  }

  /** The register moved by one byte, as the table does it. */
  lemma TableByte(crc: bv32, b: bv8)
    ensures Feed(BitStep, crc, BitsOf(b)) == Xor(Rest(crc), Iterate(Shift, Byte(Xor(crc, b as bv32)), 8))
  {
    ByteStep(crc, b);
    TableStep(Xor(crc, b as bv32));
    RestKept(crc, b);
  }

  // ---- The image tool ----

  /** The inner loop of InitTableCRC32. */
  method EightSteps(start: bv32) returns (crc: bv32)
    ensures crc == Iterate(Shift, start, 8)
  {
    crc := start;
    var j := 0;
    while j < 8
      invariant j <= 8 && crc == Iterate(Shift, start, j)
    {
      crc := Shift(crc);
      j := j + 1;
    }
  }

  ghost function Entry(i: nat): bv32
    requires i < 256
  {
    Iterate(Shift, i as bv32, 8)
  }

  ghost predicate TableReady(table: seq<bv32>) {
    |table| == 256 && forall i {:trigger table[i]} | 0 <= i < 256 :: table[i] == Entry(i)
  }

  /** InitTableCRC32. */
  method InitTable(table: array<bv32>)
    requires table.Length == 256
    modifies table
    ensures TableReady(table[..])
  {
    var i := 0;
    while i < 256
      invariant 0 <= i <= 256
      invariant forall k {:trigger table[k]} | 0 <= k < i :: table[k] == Entry(k)
    {
      FillEntry(table, i);
      i := i + 1;
    }
  }

  /** The outer loop's body. */
  method FillEntry(table: array<bv32>, i: nat)
    requires i < 256 == table.Length
    modifies table
    ensures table[..] == old(table[..])[i := Entry(i)]
  {
    var crc := EightSteps(i as bv32);
    table[i] := crc;
  }

  lemma EntryOf(index: bv32)
    requires index & 0xFF == index
    ensures index as nat < 256 && Entry(index as nat) == Iterate(Shift, index, 8)
  {
  }

  /** One round of the loop of ChecksumCRC32. */
  method NextByte(table: array<bv32>, crc: bv32, b: bv8) returns (crc': bv32)
    requires TableReady(table[..])
    ensures crc' == Feed(BitStep, crc, BitsOf(b))
  {
    var index := Byte(Xor(crc, b as bv32));
    EntryOf(index);
    TableByte(crc, b);
    crc' := Xor(Rest(crc), table[index as nat]);
  }

  /** The register after the first `i` bytes. */
  ghost function Fed(data: seq<bv8>, i: nat): bv32
    requires i <= |data|
  {
    Feed(BitStep, 0xFFFF_FFFF, AllBits(data[..i]))
  }

  lemma FedSoFar(data: seq<bv8>, i: nat)
    requires i < |data|
    ensures Fed(data, i + 1) == Feed(BitStep, Fed(data, i), BitsOf(data[i]))
  {
    assert data[..i + 1][..i] == data[..i];
    FeedJoin(BitStep, 0xFFFF_FFFF, AllBits(data[..i]), BitsOf(data[i]));
  }

  lemma FedNothing(data: seq<bv8>)
    ensures Fed(data, 0) == 0xFFFF_FFFF
  {
    assert data[..0] == [];
  }

  lemma FedAll(data: seq<bv8>, crc: bv32)
    requires crc == Fed(data, |data|)
    ensures crc ^ 0xFFFF_FFFF == Crc32(data)
  {
    assert data[..|data|] == data;
  }

  /** ChecksumCRC32, once the table is filled, is CRC-32 of every buffer. */
  method Checksum(table: array<bv32>, data: seq<bv8>) returns (crc: bv32)
    requires TableReady(table[..])
    ensures crc == Crc32(data)
  {
    crc := 0xFFFF_FFFF;
    FedNothing(data);
    var i := 0;
    while i < |data|
      invariant i <= |data| && crc == Fed(data, i)
    {
      FedSoFar(data, i);
      crc := NextByte(table, crc, data[i]);
      i := i + 1;
    }
    FedAll(data, crc);
    crc := crc ^ 0xFFFF_FFFF;
  }

  // ---- The check value ----

  /** The nine bytes "123456789", for which catalogues of checksums give the value of CRC-32. */
  function CheckInput(): (data: seq<bv8>)
    ensures |data| == 9
  {
    [0x31, 0x32, 0x33, 0x34, 0x35, 0x36, 0x37, 0x38, 0x39]
  }

  /** Byte `i` takes the register from `crc` to `next`. */
  predicate Round(data: seq<bv8>, i: nat, crc: bv32, next: bv32) {
    i < |data| && EightShifts(crc ^ (data[i] as bv32)) == next
  }

  lemma CheckByte(data: seq<bv8>, i: nat, crc: bv32, next: bv32)
    requires Round(data, i, crc, next) && Fed(data, i) == crc
    ensures Fed(data, i + 1) == next
  {
    FedSoFar(data, i);
    ByteStep(crc, data[i]);
    EightOf(Xor(crc, data[i] as bv32));
  }

  function EightShifts(x: bv32): bv32 {
    Shift(Shift(Shift(Shift(Shift(Shift(Shift(Shift(x))))))))
  }

  lemma EightOf(x: bv32)
    ensures Iterate(Shift, x, 8) == EightShifts(x)
  {
    assert Iterate(Shift, x, 4) == Shift(Shift(Shift(Shift(x))));
    assert Iterate(Shift, x, 6) == Shift(Shift(Iterate(Shift, x, 4)));
  }

  lemma CheckRounds(data: seq<bv8>)
    requires data == CheckInput()
    ensures Round(data, 0, 0xFFFF_FFFF, 0x7C23_1048)
    ensures Round(data, 1, 0x7C23_1048, 0xB0AC_BB32)
    ensures Round(data, 2, 0xB0AC_BB32, 0x77B7_9C2D)
    ensures Round(data, 3, 0x77B7_9C2D, 0x641C_1F5C)
    ensures Round(data, 4, 0x641C_1F5C, 0x340A_C5E3)
    ensures Round(data, 5, 0x340A_C5E3, 0xF68D_2C9E)
    ensures Round(data, 6, 0xF68D_2C9E, 0xAFFC_9660)
    ensures Round(data, 7, 0xAFFC_9660, 0x651F_2550)
    ensures Round(data, 8, 0x651F_2550, 0x340B_C6D9)
  {
  }

  lemma CheckValue()
    ensures Crc32(CheckInput()) == 0xCBF4_3926
  {
    var data := CheckInput();
    CheckRounds(data);
    FedNothing(data);
    CheckByte(data, 0, 0xFFFF_FFFF, 0x7C23_1048);
    CheckByte(data, 1, 0x7C23_1048, 0xB0AC_BB32);
    CheckByte(data, 2, 0xB0AC_BB32, 0x77B7_9C2D);
    CheckByte(data, 3, 0x77B7_9C2D, 0x641C_1F5C);
    CheckByte(data, 4, 0x641C_1F5C, 0x340A_C5E3);
    CheckByte(data, 5, 0x340A_C5E3, 0xF68D_2C9E);
    CheckByte(data, 6, 0xF68D_2C9E, 0xAFFC_9660);
    CheckByte(data, 7, 0xAFFC_9660, 0x651F_2550);
    CheckByte(data, 8, 0x651F_2550, 0x340B_C6D9);
    FedAll(data, 0x340B_C6D9);
  }
}
