/** Page table entries (Kernel/Source/Memory/PTE.c). An entry is the record of the bit fields of
    its 64-bit word: Intel SDM Volume 3A, section 4.5 (4-level paging). */
module Pte {
  import opened Machine


  const ADDRESS_LIMIT := 0x10_0000_0000_0000   // 2^52: bits 51:12 hold the address

  datatype PatSelect = PatSelect(pat: bool, pcd: bool, pwt: bool)

  datatype PteType = Pml4Entry | PdptEntry | Pdp1GbEntry | PdEntry | Pd2MbEntry | PtEntry | InvalidPteType

  /** The flag word a caller passes to PteEncodeEntry. Bits 3, 4, 7 and 12 are left out: the
      encoder clears them and sets them itself. */
  datatype Flags = Flags(present: bool, writable: bool, user: bool, global: bool, nx: bool)

  /** `bit7` is PS in a PDPTE or PDE and PAT in a PTE; `address` is the word masked with bits
      51:12, so in a large leaf it also holds the PAT bit (12); `used` is bits 6:5 (accessed,
      dirty), `avl` bits 11:9 and `high` bits 62:52. */
  datatype Entry = Entry(present: bool, writable: bool, user: bool, pwt: bool, pcd: bool, used: nat,
                         bit7: bool, global: bool, avl: nat, address: nat, high: nat, nx: bool)

  const NotPresent := Entry(false, false, false, false, false, 0, false, false, 0, 0, 0, false)

  /** KR_PTE2_ENCODE_FAILURE_DUE_TO_ALIGNMENT: the all-ones word. Its present bit is set. */
  const EncodeFailure := Entry(true, true, true, true, true, 3, true, true, 7, ADDRESS_LIMIT - PAGE, 0x7FF, true)

  /** g_pslDefault. */
  const DefaultPat := SelectPat(WriteBack)

  // ---- Rights ----

  /** What the entries of a walk allow together (section 4.6): a page can be written if all of them say so,
      user mode may use it if all of them say so, and instructions cannot be fetched from it if one of
      them says so. */
  datatype Rights = Rights(writable: bool, user: bool, noExecute: bool)

  const AllRights := Rights(true, true, false)

  /** After one more entry. */
  function Through(r: Rights, e: Entry): Rights {
    Rights(r.writable && e.writable, r.user && e.user, r.noExecute || e.nx)
  }

  // ---- Memory types ----

  datatype MemoryType = Uncacheable | WriteCombining | WriteThrough | WriteProtected | WriteBack | Uncached

  /** The page attribute table as KrVmmInitCpu loads it, lowest byte first (section 12.12 of the same
      manual). */
  function PatRegister(): (table: seq<MemoryType>)
    ensures |table| == 8
  {
    [WriteBack, WriteThrough, Uncached, Uncacheable, WriteCombining, WriteProtected, Uncached, Uncacheable]
  }

  /** The entry that an access with these three bits selects. */
  function TypeOf(p: PatSelect): MemoryType {
    PatRegister()[(if p.pat then 4 else 0) + (if p.pcd then 2 else 0) + if p.pwt then 1 else 0]
  }

  /** KrSelectPat, with the places that KrVmmInitCpu notes in PatMsrState. */
  function SelectPat(t: MemoryType): PatSelect {
    match t
    case Uncacheable => PatSelect(false, true, true)
    case WriteCombining => PatSelect(true, false, false)
    case WriteThrough => PatSelect(false, false, true)
    case WriteProtected => PatSelect(true, false, true)
    case WriteBack => PatSelect(false, false, false)
    case Uncached => PatSelect(false, true, false)
  }

  /** The bits selected for a type select that type. */
  lemma SelectsType(t: MemoryType)
    ensures TypeOf(SelectPat(t)) == t
  {
  }

  /** The memory type of a page, by the leaf that maps it. */
  function LeafType(level: nat, e: Entry): MemoryType {
    TypeOf(LeafPat(level, e))
  }

  /** KrGetPteTypeAlignment. */
  function Alignment(kind: PteType): nat {
    match kind
    case Pdp1GbEntry => 0x4000_0000
    case Pd2MbEntry => 0x20_0000
    case InvalidPteType => 0
    case _ => 0x1000
  }

  /** KrGetParentPteType. */
  function ParentType(kind: PteType): PteType {
    match kind
    case Pdp1GbEntry => Pml4Entry
    case PdptEntry => Pml4Entry
    case Pd2MbEntry => PdptEntry
    case PdEntry => PdptEntry
    case PtEntry => PdEntry
    case _ => InvalidPteType
  }

  /** The level (0 for the PML4) at which entries of this kind live. */
  function LevelOf(kind: PteType): nat
    requires kind != InvalidPteType
  {
    match kind
    case Pml4Entry => 0
    case PdptEntry => 1 case Pdp1GbEntry => 1
    case PdEntry => 2 case Pd2MbEntry => 2
    case PtEntry => 3
  }

  predicate IsLeafType(kind: PteType) {
    kind == Pdp1GbEntry || kind == Pd2MbEntry || kind == PtEntry
  }

  /** PteEncodeEntry with KrMakeFlagsForPTEv2. `nxAllowed` is false only when the virtual memory
      manager is initialized and the processor lacks NX. */
  function EncodeEntry(kind: PteType, base: nat, flags: Flags, pat: PatSelect, nxAllowed: bool): Entry {
    var align := Alignment(kind);
    if (if align == 0 then base != 0 else base % align != 0) then EncodeFailure
    else
      var large := kind == Pdp1GbEntry || kind == Pd2MbEntry;
      Entry(flags.present, flags.writable, flags.user, pat.pwt, pat.pcd, 0,
            large || (pat.pat && kind == PtEntry), flags.global, 0,
            base + (if large && pat.pat then PAGE else 0), 0, flags.nx && nxAllowed)
  }

  /** Bytes one entry at `level` covers. */
  function Span(level: nat): nat
    requires level <= 3
  {
    match level
    case 0 => 0x80_0000_0000
    case 1 => 0x4000_0000
    case 2 => 0x20_0000
    case 3 => 0x1000
  }

  /** Section 4.5: a PTE is a leaf, a PDPTE or PDE is one when its PS bit is set. */
  predicate IsLeaf(level: nat, e: Entry) {
    e.present && (level == 3 || (0 < level && e.bit7))
  }

  predicate IsTable(level: nat, e: Entry) {
    e.present && level < 3 && !e.bit7
  }

  /** The physical base of the page a leaf maps: the address field without the bits below the
      page size, among them the PAT bit of a large leaf. */
  function LeafBase(level: nat, e: Entry): nat
    requires 1 <= level <= 3
  {
    e.address - e.address % Span(level)
  }

  function LeafPat(level: nat, e: Entry): PatSelect {
    PatSelect(if level == 3 then e.bit7 else e.address / PAGE % 2 == 1, e.pcd, e.pwt)
  }

  /** Decoding inverts encoding: the hardware sees a leaf (or a table) of the requested kind with
      the requested base, rights and memory type, the failure word is never produced for an aligned
      base, and the entry fits its 64-bit word. */
  lemma DecodeEncode(kind: PteType, base: nat, flags: Flags, pat: PatSelect, nxAllowed: bool)
    requires kind != InvalidPteType && base % Alignment(kind) == 0 && base < ADDRESS_LIMIT && flags.present
    ensures var e := EncodeEntry(kind, base, flags, pat, nxAllowed);
      && e != EncodeFailure && Fits(e)
      && (if IsLeafType(kind)
          then IsLeaf(LevelOf(kind), e) && LeafBase(LevelOf(kind), e) == base && LeafPat(LevelOf(kind), e) == pat
          else IsTable(LevelOf(kind), e) && e.address == base)
      && e.writable == flags.writable && e.user == flags.user && e.global == flags.global
      && e.nx == (flags.nx && nxAllowed) && e.pcd == pat.pcd && e.pwt == pat.pwt
      && e.used == 0 && e.avl == 0 && e.high == 0
  {
    if kind == Pdp1GbEntry {
      LargeBase(base, Span(1));
      HugeLeaf(base, flags, pat, nxAllowed);
    } else if kind == Pd2MbEntry {
      LargeBase(base, Span(2));
      LargeLeaf(base, flags, pat, nxAllowed);
    } else {
      SmallEntry(kind, base, flags, pat, nxAllowed);
    }
  }

  /** The failure word is what a misaligned base gives, and nothing else. */
  lemma MisalignedRefused(kind: PteType, base: nat, flags: Flags, pat: PatSelect, nxAllowed: bool)
    requires base < ADDRESS_LIMIT && flags.present
    ensures EncodeEntry(kind, base, flags, pat, nxAllowed) == EncodeFailure <==>
      if kind == InvalidPteType then base != 0
      else base % (if kind == Pdp1GbEntry then 0x4000_0000 else if kind == Pd2MbEntry then 0x20_0000 else 0x1000) != 0
  {
    if kind != InvalidPteType && base % Alignment(kind) == 0 { DecodeEncode(kind, base, flags, pat, nxAllowed); }
  }

  /** The entries of the table one level up: pointers to the tables that hold entries of `kind`. */
  lemma ParentAbove(kind: PteType)
    ensures ParentType(kind) == InvalidPteType <==> kind == InvalidPteType || kind == Pml4Entry
    ensures ParentType(kind) != InvalidPteType ==>
      !IsLeafType(ParentType(kind)) && LevelOf(ParentType(kind)) == LevelOf(kind) - 1
  {
  }

  /** The failure word has every bit set. */
  lemma FailureWord()
    ensures Fits(EncodeFailure) && Word(EncodeFailure) == 0xFFFF_FFFF_FFFF_FFFF
  {
  }

  lemma SmallEntry(kind: PteType, base: nat, flags: Flags, pat: PatSelect, nxAllowed: bool)
    requires kind == PtEntry || kind == PdEntry || kind == PdptEntry || kind == Pml4Entry
    requires base % PAGE == 0 && base < ADDRESS_LIMIT && flags.present
    ensures var e := EncodeEntry(kind, base, flags, pat, nxAllowed);
      && e.address == base && e != EncodeFailure && Fits(e)
      && (if kind == PtEntry then IsLeaf(3, e) && LeafBase(3, e) == base && LeafPat(3, e) == pat
          else IsTable(LevelOf(kind), e))
  {
  }

  lemma HugeLeaf(base: nat, flags: Flags, pat: PatSelect, nxAllowed: bool)
    requires base % 0x4000_0000 == 0 && (base + PAGE) % 0x4000_0000 == PAGE && base % PAGE == 0 && flags.present
    requires base + PAGE < ADDRESS_LIMIT && base / PAGE % 2 == 0 && (base + PAGE) / PAGE % 2 == 1
    ensures var e := EncodeEntry(Pdp1GbEntry, base, flags, pat, nxAllowed);
      IsLeaf(1, e) && e != EncodeFailure && Fits(e) && LeafBase(1, e) == base && LeafPat(1, e) == pat
  {
    var e := EncodeEntry(Pdp1GbEntry, base, flags, pat, nxAllowed);
    assert e.address == base || e.address == base + PAGE;
    assert e.avl == 0;
  }

  lemma LargeLeaf(base: nat, flags: Flags, pat: PatSelect, nxAllowed: bool)
    requires base % 0x20_0000 == 0 && (base + PAGE) % 0x20_0000 == PAGE && base % PAGE == 0 && flags.present
    requires base + PAGE < ADDRESS_LIMIT && base / PAGE % 2 == 0 && (base + PAGE) / PAGE % 2 == 1
    ensures var e := EncodeEntry(Pd2MbEntry, base, flags, pat, nxAllowed);
      IsLeaf(2, e) && e != EncodeFailure && Fits(e) && LeafBase(2, e) == base && LeafPat(2, e) == pat
  {
  }

  /** The PAT bit of a large leaf lies below the page size and does not disturb the base. */
  lemma LargeBase(base: nat, span: nat)
    requires (span == Span(1) || span == Span(2)) && base % span == 0
    ensures (base + PAGE) % span == PAGE && base % PAGE == 0
    ensures base < ADDRESS_LIMIT ==> base + PAGE < ADDRESS_LIMIT
    ensures base / PAGE % 2 == 0 && (base + PAGE) / PAGE % 2 == 1
  {
    var q := base / span;
    assert base == span * q;
    DivMod(span, q, PAGE);
    if span == Span(1) { PageOfLarge(base, 0x2_0000 * q); } else { PageOfLarge(base, 0x100 * q); }
  }

  lemma PageOfLarge(base: nat, half: nat)
    requires base == PAGE * (2 * half)
    ensures base % PAGE == 0 && base / PAGE % 2 == 0 && (base + PAGE) / PAGE % 2 == 1
  {
    DivMod(PAGE, 2 * half, 0);
    DivMod(PAGE, 2 * half + 1, 0);
    DivMod(2, half, 0);
    DivMod(2, half, 1);
  }

  // ---- The 64-bit word ----

  function Digit(b: bool): nat {
    if b then 1 else 0
  }

  predicate Fits(e: Entry) {
    && e.used < 4 && e.avl < 8 && e.high < 0x800
    && e.address < ADDRESS_LIMIT && e.address % PAGE == 0
  }

  /** Bits 63:7, and below them bits 6:0. */
  function UpperWord(e: Entry): nat {
    Digit(e.bit7) + 2 * (Digit(e.global) + 2 * (e.avl
    + 8 * (e.address / PAGE + 0x100_0000_0000 * (e.high + 0x800 * Digit(e.nx)))))
  }

  function Word(e: Entry): nat {
    Digit(e.present) + 2 * (Digit(e.writable) + 2 * (Digit(e.user) + 2 * (Digit(e.pwt) + 2 * (Digit(e.pcd)
    + 2 * (e.used + 4 * UpperWord(e))))))
  }

  /** Reading the fields back, low bits first. */
  function FromWord(w: nat): Entry {
    var w1 := w / 2; var w2 := w1 / 2; var w3 := w2 / 2; var w4 := w3 / 2; var w5 := w4 / 2;
    var w7 := w5 / 4; var w8 := w7 / 2; var w9 := w8 / 2; var w12 := w9 / 8; var w52 := w12 / 0x100_0000_0000;
    Entry(w % 2 == 1, w1 % 2 == 1, w2 % 2 == 1, w3 % 2 == 1, w4 % 2 == 1, w5 % 4, w7 % 2 == 1, w8 % 2 == 1,
          w9 % 8, w12 % 0x100_0000_0000 * PAGE, w52 % 0x800, w52 / 0x800 == 1)
  }

  /** The record loses nothing of the word: reading the fields of its word gives it back. */
  lemma WordRoundTrip(e: Entry)
    requires Fits(e)
    ensures FromWord(Word(e)) == e
  {
    LowFields(e, e.used + 4 * UpperWord(e));
    HighFields(e, UpperWord(e));
    assert (e.used + 4 * UpperWord(e)) / 4 == UpperWord(e);
  }

  /** Where the processor looks for them. */
  lemma WordBits(e: Entry)
    requires Fits(e)
    ensures var w := Word(e);
      && (w % 2 == 1 <==> e.present) && (w / 0x2 % 2 == 1 <==> e.writable) && (w / 0x4 % 2 == 1 <==> e.user)
      && (w / 0x8 % 2 == 1 <==> e.pwt) && (w / 0x10 % 2 == 1 <==> e.pcd)
      && (w / 0x80 % 2 == 1 <==> e.bit7) && (w / 0x100 % 2 == 1 <==> e.global)
      && w / 0x1000 % 0x100_0000_0000 * PAGE == e.address && (w / 0x8000_0000_0000_0000 % 2 == 1 <==> e.nx)
  {
    var u := UpperWord(e);
    LowFields(e, e.used + 4 * u);
    HighFields(e, u);
    Shifted(Word(e), u, e.used);
    HighBits(e, u);
  }

  lemma Shifted(w: nat, u: nat, used: nat)
    requires used < 4 && w / 2 / 2 / 2 / 2 / 2 == used + 4 * u
    ensures w / 2 / 2 == w / 0x4 && w / 2 / 2 / 2 == w / 0x8 && w / 2 / 2 / 2 / 2 == w / 0x10
    ensures w / 0x80 == u && w / 0x100 == u / 2 && w / 0x1000 == u / 0x20
    ensures w / 0x8000_0000_0000_0000 == u / 0x100_0000_0000_0000
  {
    DivTwice(w, 2, 2);
    DivTwice(w, 4, 2);
    DivTwice(w, 8, 2);
    DivTwice(w, 0x10, 2);
    DivTwice(w, 0x20, 4);
    DivTwice(w, 0x80, 2);
    DivTwice(w, 0x80, 0x20);
    DivTwice(w, 0x80, 0x100_0000_0000_0000);
  }

  lemma DivTwice(w: nat, a: nat, b: nat)
    requires 0 < a && 0 < b
    ensures w / a / b == w / (a * b)
  {
    DivRest(w, a, b, w / a, w % a, w / a / b, w / a % b);
  }

  lemma DivRest(w: nat, a: nat, b: nat, q: nat, r: nat, s: nat, t: nat)
    requires w == a * q + r && r < a && q == b * s + t && t < b
    ensures w / (a * b) == s
  {
    assert a * (b * s + t) == a * b * s + a * t;
    assert a * (t + 1) <= a * b;
    DivMod(a * b, s, a * t + r);
  }

  lemma HighBits(e: Entry, u: nat)
    requires Fits(e) && u == UpperWord(e)
    ensures u / 2 / 2 / 8 == u / 0x20 && u / 0x100_0000_0000_0000 % 2 == Digit(e.nx)
  {
    var w52 := e.high + 0x800 * Digit(e.nx);
    assert u / 2 / 2 / 8 == e.address / PAGE + 0x100_0000_0000 * w52;
    assert u == 0x100_0000_0000_0000 * Digit(e.nx) + u % 0x100_0000_0000_0000;
  }

  lemma HighFields(e: Entry, w7: nat)
    requires Fits(e) && w7 == UpperWord(e)
    ensures w7 % 2 == Digit(e.bit7) && w7 / 2 % 2 == Digit(e.global) && w7 / 2 / 2 % 8 == e.avl
    ensures var w12 := w7 / 2 / 2 / 8;
      && w12 % 0x100_0000_0000 * PAGE == e.address
      && w12 / 0x100_0000_0000 % 0x800 == e.high && w12 / 0x100_0000_0000 / 0x800 == Digit(e.nx)
  {
    var w52 := e.high + 0x800 * Digit(e.nx);
    assert w7 / 2 / 2 == e.avl + 8 * (e.address / PAGE + 0x100_0000_0000 * w52);
    assert w7 / 2 / 2 / 8 == e.address / PAGE + 0x100_0000_0000 * w52;
  }

  lemma LowFields(e: Entry, w5: nat)
    requires Word(e) ==
      Digit(e.present) + 2 * (Digit(e.writable)
        + 2 * (Digit(e.user) + 2 * (Digit(e.pwt) + 2 * (Digit(e.pcd) + 2 * w5))))
    ensures var w := Word(e);
      && w % 2 == Digit(e.present) && w / 2 % 2 == Digit(e.writable) && w / 2 / 2 % 2 == Digit(e.user)
      && w / 2 / 2 / 2 % 2 == Digit(e.pwt) && w / 2 / 2 / 2 / 2 % 2 == Digit(e.pcd) && w / 2 / 2 / 2 / 2 / 2 == w5
  {
    var w := Word(e);
    assert w / 2 == Digit(e.writable) + 2 * (Digit(e.user) + 2 * (Digit(e.pwt) + 2 * (Digit(e.pcd) + 2 * w5)));
    assert w / 2 / 2 == Digit(e.user) + 2 * (Digit(e.pwt) + 2 * (Digit(e.pcd) + 2 * w5));
    assert w / 2 / 2 / 2 == Digit(e.pwt) + 2 * (Digit(e.pcd) + 2 * w5);
  }
}
