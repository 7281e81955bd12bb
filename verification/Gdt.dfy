/**
 * The Global Descriptor Table: descriptor packing, table entries in guest memory,
 * and the segment values read from them.
 */
module Gdt {
  import opened Bits
  import opened ByteBuffers
  import opened Wrappers
  import opened Regions
  import opened PhysicalMemory

  datatype VPOperationStatus = OK | Failed | InvalidSelector

  // ----- Descriptors ---------------------------------------------------------------

  /** The bytes of a 16-byte table entry; an 8-byte descriptor uses the first half. */
  type GDTEntry = e: seq<byte> | |e| == 16 witness seq(16, i => 0)

  /** A 32-bit value from its bytes, lowest first. */
  function Quad(b0: nat, b1: nat, b2: nat, b3: nat): nat {
    b0 + b1 * 0x100 + b2 * 0x1_0000 + b3 * 0x100_0000
  }

  /** Three bytes of a limit and four of a base, split over the first eight bytes. */
  function Packed(base: u32, limit: u32, access: u8, flags: u8): (bytes: seq<byte>)
    ensures |bytes| == 8
  {
    [limit % 0x100, limit / 0x100 % 0x100,
     base % 0x100, base / 0x100 % 0x100, base / 0x1_0000 % 0x100,
     access, limit / 0x1_0000 % 0x10 + flags % 0x10 * 0x10, base / 0x100_0000]
  }

  /** GDTDescriptor::Set on an entry. */
  function SetDescriptor(e: GDTEntry, base: u32, limit: u32, access: u8, flags: u8): GDTEntry {
    Packed(base, limit, access, flags) + e[8..]
  }

  /** LDTDescriptor::Set: the base's upper half goes to the second eight bytes. */
  function SetSystemDescriptor(base: u64, limit: u32, access: u8, flags: u8): GDTEntry {
    var top := base / 0x1_0000_0000;
    Packed(base % 0x1_0000_0000, limit, access, flags)
    + [top % 0x100, top / 0x100 % 0x100, top / 0x1_0000 % 0x100, top / 0x100_0000, 0, 0, 0, 0]
  }

  /** baseLow | (baseMid << 16) | (baseHigh << 24), as a 32-bit pattern. */
  function BaseBits(e: GDTEntry): nat {
    Or(Or(Quad(e[2], e[3], 0, 0), Shl(e[4], 16)), Shl(e[7], 24))
  }

  function GetLimit(e: GDTEntry): nat {
    var limit := Or(Quad(e[0], e[1], 0, 0), Shl(e[6] % 0x10, 16));
    if And(e[6] / 0x10, 8) != 0 then Or(Shl(limit, 12), 0xFFF) else limit
  }

  function GetAttributes(e: GDTEntry): nat {
    Or(e[5], Shl(e[6] / 0x10, 12))
  }

  /** A 32-bit int converted to a 64-bit unsigned value. */
  function SignExtend(x: nat): nat {
    if x < 0x8000_0000 then x else x + 0xFFFF_FFFF_0000_0000
  }

  function TopBits(e: GDTEntry): nat {
    Quad(e[8], e[9], e[10], e[11])
  }

  /** The lower 32 bits are an int before the upper ones are or-ed in. */
  function Extended(low: nat, top: nat): nat {
    Or(SignExtend(low), Shl(top, 32))
  }

  /** LDTDescriptor::GetBase. */
  function GetSystemBase(e: GDTEntry): nat {
    Extended(BaseBits(e), TopBits(e))
  }

  /** Or-ing a value above the bits of another adds it. */
  lemma OrAbove(low: nat, high: nat, k: nat)
    requires low < Pow2(k) && high * Pow2(k) < 0x1_0000_0000_0000_0000
    ensures Or(low, Shl(high, k)) == low + high * Pow2(k)
  {
    Double(high, Pow2(k));
    OrDisjoint(high, low, k);
    OrCommutes(low, high * Pow2(k));
  }

  lemma DescriptorPowers()
    ensures Pow2(3) == 8 && Pow2(12) == 0x1000 && Pow2(16) == 0x1_0000
    ensures Pow2(24) == 0x100_0000 && Pow2(32) == 0x1_0000_0000
  {
  }

  lemma FieldValues(e: GDTEntry)
    ensures BaseBits(e) == Quad(e[2], e[3], e[4], e[7])
    ensures Or(Quad(e[0], e[1], 0, 0), Shl(e[6] % 0x10, 16)) == Quad(e[0], e[1], e[6] % 0x10, 0)
    ensures GetAttributes(e) == e[5] as int + (e[6] / 0x10) as int * 0x1000
  {
    DescriptorPowers();
    hide Or, Shl, Pow2;
    OrAbove(Quad(e[2], e[3], 0, 0), e[4], 16);
    OrAbove(Quad(e[2], e[3], e[4], 0), e[7], 24);
    OrAbove(Quad(e[0], e[1], 0, 0), e[6] % 0x10, 16);
    OrAbove(e[5], e[6] / 0x10, 12);
  }

  /** The granularity flag is bit 3 of the four flag bits. */
  lemma GranularityBit(flags: nat)
    requires flags < 0x10
    ensures And(flags, 8) != 0 <==> flags >= 8
  {
    assert And(flags / 8, 1) == if flags >= 8 then 1 else 0;
    assert And(flags / 4, 2) == 2 * And(flags / 8, 1);
    assert And(flags / 2, 4) == 2 * And(flags / 4, 2);
    assert And(flags, 8) == 2 * And(flags / 2, 4);
  }

  lemma LimitValue(e: GDTEntry)
    ensures var limit := Quad(e[0], e[1], e[6] % 0x10, 0);
            GetLimit(e) == if e[6] >= 0x80 then limit * 0x1000 + 0xFFF else limit
  {
    hide Or, And;
    var limit := Quad(e[0], e[1], e[6] % 0x10, 0);
    FieldValues(e);
    GranularityBit(e[6] / 0x10);
    DescriptorPowers();
    OrDisjoint(limit, 0xFFF, 12);
    assert Shl(limit, 12) == limit * 0x1000;
  }

  /** Section 3.4.5 of the Intel SDM volume 3A: with the G flag the limit counts 4-KByte units. */
  function EffectiveLimit(limit: nat, flags: nat): nat {
    if flags % 0x10 >= 8 then limit % 0x10_0000 * 0x1000 + 0xFFF else limit % 0x10_0000
  }

  lemma QuadOf(x: u32)
    ensures Quad(x % 0x100, x / 0x100 % 0x100, x / 0x1_0000 % 0x100, x / 0x100_0000) == x
    ensures Quad(x % 0x100, x / 0x100 % 0x100, x / 0x1_0000 % 0x10, 0) == x % 0x10_0000
  {
    var h1, h2 := x / 0x100, x / 0x1_0000;
    assert h1 / 0x100 == h2 && h2 / 0x100 == x / 0x100_0000;
    assert x == h1 * 0x100 + x % 0x100 && h1 == h2 * 0x100 + h1 % 0x100;
    DivModUnique(x, 0x10_0000, h2 / 0x10, Quad(x % 0x100, h1 % 0x100, h2 % 0x10, 0));
  }

  /**
   * Section 3.4.5 of the Intel SDM volume 3A, the descriptor as one number: limit in bits 15:0 and 51:48,
   * base in 39:16 and 63:56, access in 47:40, flags in 55:52.
   */
  lemma DescriptorLayout(e: GDTEntry, base: u32, limit: u32, access: u8, flags: u8)
    ensures var d := SetDescriptor(e, base, limit, access, flags);
            Quad(d[0], d[1], d[2], d[3]) + Quad(d[4], d[5], d[6], d[7]) * 0x1_0000_0000 ==
            limit % 0x1_0000 + base % 0x100_0000 * 0x1_0000 + access * 0x100_0000_0000
            + limit / 0x1_0000 % 0x10 * 0x1_0000_0000_0000 + flags % 0x10 * 0x10_0000_0000_0000
            + base / 0x100_0000 * 0x100_0000_0000_0000
  {
    hide SetDescriptor, Packed;
    PackedAt(e, base, limit, access, flags);
    LowParts(base);
    LowParts(limit);
  }

  /** The second half of a system descriptor: the base's upper half, then zeros; the first half is as above. */
  lemma SystemDescriptorLayout(base: u64, limit: u32, access: u8, flags: u8)
    ensures var d := SetSystemDescriptor(base, limit, access, flags);
            && d[..8] == SetDescriptor(d, base % 0x1_0000_0000, limit, access, flags)[..8]
            && Quad(d[8], d[9], d[10], d[11]) == base / 0x1_0000_0000
            && d[12..] == [0, 0, 0, 0]
  {
    hide Packed;
    QuadOf(base / 0x1_0000_0000);
  }

  lemma LowParts(x: u32)
    ensures x % 0x1_0000 == x % 0x100 + x / 0x100 % 0x100 * 0x100
    ensures x % 0x100_0000 == x % 0x1_0000 + x / 0x1_0000 % 0x100 * 0x1_0000
  {
    assert x / 0x1_0000 == x / 0x100 / 0x100 && x / 0x100_0000 == x / 0x1_0000 / 0x100;
  }

  /** What Set packs into a code or data descriptor, the getters return. */
  lemma DescriptorRoundTrip(e: GDTEntry, base: u32, limit: u32, access: u8, flags: u8)
    ensures var d := SetDescriptor(e, base, limit, access, flags);
            && BaseBits(d) == base
            && GetLimit(d) == EffectiveLimit(limit, flags)
            && GetAttributes(d) == access + flags % 0x10 * 0x1000
  {
    hide BaseBits, GetLimit, GetAttributes, SetDescriptor, Quad, Or, Shl, And;
    var d := SetDescriptor(e, base, limit, access, flags);
    PackedAt(e, base, limit, access, flags);
    FieldValues(d);
    LimitValue(d);
    QuadOf(base);
    QuadOf(limit);
    PackedFlags(limit / 0x1_0000 % 0x10, flags % 0x10);
  }

  lemma PackedAt(e: GDTEntry, base: u32, limit: u32, access: u8, flags: u8)
    ensures var d := SetDescriptor(e, base, limit, access, flags);
            && d[0] == limit % 0x100 && d[1] == limit / 0x100 % 0x100
            && d[2] == base % 0x100 && d[3] == base / 0x100 % 0x100 && d[4] == base / 0x1_0000 % 0x100
            && d[5] == access && d[6] == limit / 0x1_0000 % 0x10 + flags % 0x10 * 0x10 && d[7] == base / 0x100_0000
  {
  }

  lemma PackedFlags(high: nat, flags: nat)
    requires high < 0x10 && flags < 0x10
    ensures (high + flags * 0x10) % 0x10 == high && (high + flags * 0x10) / 0x10 == flags
    ensures high + flags * 0x10 >= 0x80 <==> flags >= 8
  {
  }

  lemma ExtendedValue(low: u32, top: u32)
    ensures Extended(low, top) ==
            if low < 0x8000_0000 then top * 0x1_0000_0000 + low else 0xFFFF_FFFF_0000_0000 + low
  {
    DescriptorPowers();
    assert Shl(top, 32) == top * 0x1_0000_0000;
    hide Or, Pow2, Shl;
    if low < 0x8000_0000 {
      OrAbove(low, top, 32);
    } else {
      SignBitsAbsorb(low, top);
    }
  }

  lemma ExtendedIff(low: u32, top: u32)
    ensures Extended(low, top) == top * 0x1_0000_0000 + low <==> low < 0x8000_0000 || top == 0xFFFF_FFFF
  {
    hide Extended;
    ExtendedValue(low, top);
  }

  /** The copies of the sign bit swallow whatever is or-ed into the upper half. */
  lemma SignBitsAbsorb(low: nat, top: nat)
    requires low < 0x1_0000_0000 && top < 0x1_0000_0000
    ensures Or(low + 0xFFFF_FFFF_0000_0000, top * 0x1_0000_0000) == low + 0xFFFF_FFFF_0000_0000
  {
    DescriptorPowers();
    OrOnes(top, 32);
    OrZero(low);
    OrSplit(0xFFFF_FFFF, low, top, 0, 32);
  }

  lemma BaseRanges(e: GDTEntry)
    ensures 0 <= BaseBits(e) < 0x1_0000_0000 && 0 <= TopBits(e) < 0x1_0000_0000
  {
    hide BaseBits;
    FieldValues(e);
  }

  lemma SystemParts(base: u64, limit: u32, access: u8, flags: u8)
    ensures var d := SetSystemDescriptor(base, limit, access, flags);
            BaseBits(d) == base % 0x1_0000_0000 && TopBits(d) == base / 0x1_0000_0000
  {
    hide BaseBits, Quad;
    var d := SetSystemDescriptor(base, limit, access, flags);
    FieldValues(d);
    QuadOf(base % 0x1_0000_0000);
    QuadOf(base / 0x1_0000_0000);
  }

  /**
   * An LDT or TSS base survives packing exactly when its bit 31 is clear or its
   * upper half is all ones: the code sign-extends the lower half.
   */
  lemma SystemBaseRoundTripIff(base: u64, limit: u32, access: u8, flags: u8)
    ensures GetSystemBase(SetSystemDescriptor(base, limit, access, flags)) == base <==>
            base % 0x1_0000_0000 < 0x8000_0000 || base / 0x1_0000_0000 == 0xFFFF_FFFF
  {
    hide BaseBits, TopBits, Extended, SetSystemDescriptor;
    SystemParts(base, limit, access, flags);
    ExtendedIff(base % 0x1_0000_0000, base / 0x1_0000_0000);
  }

  /** Departure: a base with bit 31 set alone comes back with its upper half filled. */
  lemma HighBaseIsExtended(limit: u32, access: u8, flags: u8)
    ensures GetSystemBase(SetSystemDescriptor(0x8000_0000, limit, access, flags)) == 0xFFFF_FFFF_8000_0000
  {
    hide BaseBits, TopBits, Extended, SetSystemDescriptor;
    SystemParts(0x8000_0000, limit, access, flags);
    ExtendedValue(0x8000_0000, 0);
  }

  /** NonTaskGateDescriptor::SetOffset, as the six bytes low, high and top it stores. */
  function SetOffset(e: GDTEntry, offset: u64): GDTEntry {
    var low, top := offset % 0x1_0000_0000, offset / 0x1_0000_0000;
    [low % 0x100, low / 0x100 % 0x100] + e[2..6] + [low / 0x1_0000 % 0x100, low / 0x100_0000]
    + [top % 0x100, top / 0x100 % 0x100, top / 0x1_0000 % 0x100, top / 0x100_0000] + e[12..]
  }

  function OffsetBits(e: GDTEntry): nat {
    Or(Quad(e[0], e[1], 0, 0), Shl(Quad(e[6], e[7], 0, 0), 16))
  }

  function GetOffset(e: GDTEntry): nat {
    Extended(OffsetBits(e), TopBits(e))
  }

  lemma OffsetParts(e: GDTEntry, offset: u64)
    ensures var d := SetOffset(e, offset);
            OffsetBits(d) == offset % 0x1_0000_0000 && TopBits(d) == offset / 0x1_0000_0000
  {
    hide Or, Shl;
    var d := SetOffset(e, offset);
    var low, top := offset % 0x1_0000_0000, offset / 0x1_0000_0000;
    QuadOf(top);
    OffsetHalves(low);
    DescriptorPowers();
    OrAbove(low % 0x1_0000, low / 0x1_0000, 16);
  }

  /** Section 6.14.1 of the Intel SDM volume 3A: offset bits 15:0, 31:16 and 63:32 lie at bytes 0, 6 and 8. */
  lemma GateLayout(e: GDTEntry, offset: u64)
    ensures var d, low := SetOffset(e, offset), offset % 0x1_0000_0000;
            && Quad(d[0], d[1], 0, 0) == low % 0x1_0000 && Quad(d[6], d[7], 0, 0) == low / 0x1_0000
            && Quad(d[8], d[9], d[10], d[11]) == offset / 0x1_0000_0000
            && d[2..6] == e[2..6] && d[12..] == e[12..]
  {
    hide Or, Shl, Quad;
    OffsetHalves(offset % 0x1_0000_0000);
    QuadOf(offset / 0x1_0000_0000);
  }

  lemma OffsetHalves(low: u32)
    ensures Quad(low % 0x100, low / 0x100 % 0x100, 0, 0) == low % 0x1_0000
    ensures Quad(low / 0x1_0000 % 0x100, low / 0x100_0000, 0, 0) == low / 0x1_0000
  {
    LowParts(low);
    var h := low / 0x1_0000;
    assert low / 0x100_0000 == h / 0x100;
  }

  /** A gate offset round-trips under the same condition. */
  lemma OffsetRoundTripIff(e: GDTEntry, offset: u64)
    ensures GetOffset(SetOffset(e, offset)) == offset <==>
            offset % 0x1_0000_0000 < 0x8000_0000 || offset / 0x1_0000_0000 == 0xFFFF_FFFF
  {
    hide OffsetBits, TopBits, Extended, SetOffset;
    OffsetParts(e, offset);
    ExtendedIff(offset % 0x1_0000_0000, offset / 0x1_0000_0000);
  }

  // ----- Table entries in guest memory ----------------------------------------------

  datatype TableRegister = TableRegister(base: u64, limit: u16)

  /** What the table accessors read: memory, GDTR (None when the read fails) and the execution mode. */
  datatype View = View(regions: seq<MemoryRegion>, host: HostMemory, gdtr: Option<TableRegister>, ia32e: bool)

  function MemRead(v: View, paddr: u64, size: u64): Option<seq<byte>> {
    match FindAccess(v.regions, paddr, size)
    case None => None
    case Some(a) => Some(Peek(v.host, Span(a.host, a.size)))
  }

  /** Stores bytes in guest memory; None when the access fails. */
  function MemWrite(v: View, paddr: u64, bytes: seq<byte>): Option<HostMemory>
    requires |bytes| < 0x1_0000_0000_0000_0000 && Plain(paddr, |bytes|) && ValidRegions(v.regions)
  {
    FoundAccess(v.regions, paddr, |bytes|);
    match FindAccess(v.regions, paddr, |bytes|)
    case None => None
    case Some(a) => Some(Poke(v.host, Span(a.host, a.size), bytes))
  }

  /** The S flag of a descriptor: set for code and data, clear for system descriptors. */
  predicate IsCodeOrData(e: seq<byte>)
    requires |e| >= 8
  {
    e[5] / 0x10 % 2 == 1
  }

  function DescriptorType(e: seq<byte>): nat
    requires |e| >= 8
  {
    e[5] % 0x10
  }

  /** System types that take 16 bytes in IA-32e mode: LDT, TSS, call, interrupt and trap gates. */
  predicate IsExtended(t: nat) {
    t == 0x2 || t == 0x9 || t == 0xB || t == 0xC || t == 0xE || t == 0xF
  }

  /** System types that are reserved outside IA-32e mode. */
  predicate IsReserved(t: nat) {
    t == 0x0 || t == 0x8 || t == 0xA || t == 0xD
  }

  /** What follows once the first eight bytes are known: the status, or None when eight more bytes are due. */
  function Verdict(v: View, selector: u16, limit: u16, e: seq<byte>): Option<VPOperationStatus>
    requires |e| >= 8
  {
    if IsCodeOrData(e) then Some(OK)
    else if v.ia32e then
      if !IsExtended(DescriptorType(e)) || selector + 16 > limit then Some(InvalidSelector) else None
    else if IsReserved(DescriptorType(e)) then Some(InvalidSelector)
    else Some(OK)
  }

  datatype GetResult = GetResult(status: VPOperationStatus, entry: GDTEntry)

  /** GetGDTEntry; scratch holds what the caller's entry contained before. */
  function GetGDTEntry(v: View, selector: u16, scratch: GDTEntry): GetResult
    requires ValidRegions(v.regions)
  {
    if v.gdtr.None? then GetResult(Failed, scratch)
    else if selector + 8 > v.gdtr.value.limit then GetResult(InvalidSelector, scratch)
    else
      var at := Wrap(v.gdtr.value.base + selector);
      FoundAccess(v.regions, at, 8);
      FoundAccess(v.regions, at, 16);
      match MemRead(v, at, 8)
      case None => GetResult(Failed, scratch)
      case Some(first) =>
        match Verdict(v, selector, v.gdtr.value.limit, first)
        case Some(status) => GetResult(status, first + scratch[8..])
        case None =>
          match MemRead(v, at, 16)
          case None => GetResult(Failed, first + scratch[8..])
          case Some(whole) => GetResult(OK, whole)
  }

  datatype SetResult = SetResult(status: VPOperationStatus, host: HostMemory)

  /** SetGDTEntry writes the first eight bytes before it looks at the descriptor's type. */
  function SetGDTEntry(v: View, selector: u16, entry: GDTEntry): SetResult
    requires ValidRegions(v.regions)
  {
    if v.gdtr.None? then SetResult(Failed, v.host)
    else if selector + 8 > v.gdtr.value.limit then SetResult(InvalidSelector, v.host)
    else
      var at := Wrap(v.gdtr.value.base + selector);
      match MemWrite(v, at, entry[..8])
      case None => SetResult(Failed, v.host)
      case Some(host) =>
        match Verdict(v, selector, v.gdtr.value.limit, entry)
        case Some(status) => SetResult(status, host)
        case None =>
          match MemWrite(v.(host := host), at, entry)
          case None => SetResult(Failed, host)
          case Some(host') => SetResult(OK, host')
  }

  // ----- Which descriptors the accessors take --------------------------------------------

  /** Where the selected entry lies. */
  function EntryAddress(v: View, selector: u16): u64
    requires v.gdtr.Some?
  {
    (v.gdtr.value.base + selector) % 0x1_0000_0000_0000_0000
  }

  /** The first n bytes of the selected entry can be accessed. */
  predicate EntryMapped(v: View, selector: u16, n: u64)
    requires v.gdtr.Some?
  {
    FindAccess(v.regions, EntryAddress(v, selector), n).Some?
  }

  /** The host bytes of the first n bytes of the selected entry. */
  function EntrySpan(v: View, selector: u16, n: u64): (ps: seq<u64>)
    requires v.gdtr.Some? && EntryMapped(v, selector, n)
    ensures |ps| == n
  {
    Span(FindAccess(v.regions, EntryAddress(v, selector), n).value.host, n)
  }

  /**
   * The descriptor types both accessors take, by the access byte: code and data;
   * in IA-32e mode LDT, available and busy TSS, call, interrupt and trap gates,
   * whose 16 bytes must lie within the limit; otherwise every type that section
   * 3.5 of the Intel SDM volume 3A does not reserve.
   */
  predicate Takes(v: View, selector: u16, access: u8)
    requires v.gdtr.Some?
  {
    var t := access % 16;
    if access / 16 % 2 == 1 then true
    else if v.ia32e then
      t in {2, 9, 11, 12, 14, 15} && selector + 16 <= v.gdtr.value.limit && EntryMapped(v, selector, 16)
    else t !in {0, 8, 10, 13}
  }

  /** The number of bytes the accessors move. */
  function EntryLength(v: View, access: u8): u64 {
    if v.ia32e && access / 16 % 2 == 0 then 16 else 8
  }

  lemma VerdictMeaning(v: View, selector: u16, limit: u16, e: seq<byte>)
    requires |e| >= 8
    ensures var t := e[5] % 16;
            Verdict(v, selector, limit, e) ==
            if e[5] / 16 % 2 == 1 then Some(OK)
            else if v.ia32e then
              if t in {2, 9, 11, 12, 14, 15} && selector + 16 <= limit then None else Some(InvalidSelector)
            else if t in {0, 8, 10, 13} then Some(InvalidSelector) else Some(OK)
  {
  }

  lemma WrapIsRemainder(x: nat)
    ensures Wrap(x) == x % 0x1_0000_0000_0000_0000
  {
    ModShift(x, 0);
  }

  /**
   * GetGDTEntry returns OK if and only if GDTR can be read, the first eight bytes
   * end at or before the limit and are mapped, and the descriptor is one it
   * takes. The entry then is the 8 or 16 bytes at the table's base plus the
   * selector, and the caller's bytes after them.
   */
  lemma GetOkIff(v: View, selector: u16, scratch: GDTEntry)
    requires ValidRegions(v.regions)
    ensures var got := GetGDTEntry(v, selector, scratch);
            && (got.status.OK? <==>
                && v.gdtr.Some? && selector + 8 <= v.gdtr.value.limit && EntryMapped(v, selector, 8)
                && Takes(v, selector, v.host[EntrySpan(v, selector, 8)[5]]))
            && (got.status.OK? ==>
                  var n := EntryLength(v, v.host[EntrySpan(v, selector, 8)[5]]);
                  && EntryMapped(v, selector, n)
                  && got.entry == Peek(v.host, EntrySpan(v, selector, n)) + scratch[n..])
            && (got.status.Failed? <==>
                || v.gdtr.None?
                || (selector + 8 <= v.gdtr.value.limit && !EntryMapped(v, selector, 8))
                || (&& selector + 8 <= v.gdtr.value.limit && EntryMapped(v, selector, 8)
                    && EntryLength(v, v.host[EntrySpan(v, selector, 8)[5]]) == 16
                    && v.host[EntrySpan(v, selector, 8)[5]] % 16 in {2, 9, 11, 12, 14, 15}
                    && selector + 16 <= v.gdtr.value.limit && !EntryMapped(v, selector, 16)))
  {
    hide Find, Verdict, Wrap, Span;
    if v.gdtr.Some? && selector + 8 <= v.gdtr.value.limit {
      var at := EntryAddress(v, selector);
      WrapIsRemainder(v.gdtr.value.base + selector);
      FoundAccess(v.regions, at, 8);
      FoundAccess(v.regions, at, 16);
      if EntryMapped(v, selector, 8) {
        VerdictMeaning(v, selector, v.gdtr.value.limit, Peek(v.host, EntrySpan(v, selector, 8)));
        assert scratch[16..] == [];
      }
    }
  }

  /** In terms of the per-byte map, wherever the access agrees with it: always, when the entry lies in one page. */
  lemma EntryIsPerByte(v: View, selector: u16, scratch: GDTEntry, k: nat)
    requires ValidRegions(v.regions) && GetGDTEntry(v, selector, scratch).status.OK?
    requires v.gdtr.Some? && EntryMapped(v, selector, 8)
    requires var n := EntryLength(v, v.host[EntrySpan(v, selector, 8)[5]]);
             k < n && Agrees(v.regions, EntryAddress(v, selector), n)
    ensures var h := Resolve(v.regions, EntryAddress(v, selector) + k);
            h.Some? && GetGDTEntry(v, selector, scratch).entry[k] == v.host[h.value]
  {
    hide GetGDTEntry, Find, Resolve, Takes, Wrap;
    GetOkIff(v, selector, scratch);
    var at := EntryAddress(v, selector);
    assert at <= at + k < at + EntryLength(v, v.host[EntrySpan(v, selector, 8)[5]]);
  }

  /**
   * SetGDTEntry returns OK under the same condition on the entry it is given, and
   * then stores its first eight bytes, and all sixteen where the descriptor takes
   * them. When it refuses the descriptor's type it has stored the first eight
   * bytes already.
   */
  lemma SetOkIff(v: View, selector: u16, entry: GDTEntry)
    requires ValidRegions(v.regions)
    ensures var set_ := SetGDTEntry(v, selector, entry);
            var written := v.gdtr.Some? && selector + 8 <= v.gdtr.value.limit && EntryMapped(v, selector, 8);
            && (set_.status.OK? <==> written && Takes(v, selector, entry[5]))
            && (!written ==> set_.host == v.host)
            && (written ==>
                  var first := Poke(v.host, EntrySpan(v, selector, 8), entry[..8]);
                  if !set_.status.OK? || EntryLength(v, entry[5]) == 8 then set_.host == first
                  else EntryMapped(v, selector, 16) && set_.host == Poke(first, EntrySpan(v, selector, 16), entry))
            && (set_.status.Failed? <==>
                || v.gdtr.None?
                || (selector + 8 <= v.gdtr.value.limit && !EntryMapped(v, selector, 8))
                || (&& written && EntryLength(v, entry[5]) == 16 && entry[5] % 16 in {2, 9, 11, 12, 14, 15}
                    && selector + 16 <= v.gdtr.value.limit && !EntryMapped(v, selector, 16)))
  {
    hide Find, Verdict, Wrap, Span, Poke;
    if v.gdtr.Some? && selector + 8 <= v.gdtr.value.limit {
      WrapIsRemainder(v.gdtr.value.base + selector);
      FoundAccess(v.regions, EntryAddress(v, selector), 8);
      FoundAccess(v.regions, EntryAddress(v, selector), 16);
      VerdictMeaning(v, selector, v.gdtr.value.limit, entry);
    }
  }

  /**
   * Departure: a refused entry leaves memory as it was exactly when the refusal
   * comes before the first write, or the first eight bytes were there already.
   */
  lemma RefusalWritesIff(v: View, selector: u16, entry: GDTEntry)
    requires ValidRegions(v.regions) && !SetGDTEntry(v, selector, entry).status.OK?
    ensures SetGDTEntry(v, selector, entry).host == v.host <==>
            || v.gdtr.None? || selector + 8 > v.gdtr.value.limit || !EntryMapped(v, selector, 8)
            || Peek(v.host, EntrySpan(v, selector, 8)) == entry[..8]
  {
    hide SetGDTEntry, Find, Poke, Takes;
    SetOkIff(v, selector, entry);
    if v.gdtr.Some? && selector + 8 <= v.gdtr.value.limit && EntryMapped(v, selector, 8) {
      var ps := EntrySpan(v, selector, 8);
      SpanDistinct(FindAccess(v.regions, EntryAddress(v, selector), 8).value.host, 8);
      PeekPoke(v.host, ps, entry[..8]);
      PokeSame(v.host, ps);
    }
  }

  /**
   * Departure: a table's limit is the offset of its last byte (section 3.5.1 of
   * the Intel SDM volume 3A), but the accessors compare it with the first byte
   * after the entry. They refuse an entry within the limit exactly when it is the
   * one that ends there.
   */
  lemma LastEntryIsRefusedIff(v: View, selector: u16, scratch: GDTEntry)
    requires ValidRegions(v.regions) && v.gdtr.Some? && selector + 7 <= v.gdtr.value.limit
    requires EntryMapped(v, selector, 8) && v.host[EntrySpan(v, selector, 8)[5]] / 16 % 2 == 1
    ensures GetGDTEntry(v, selector, scratch).status.InvalidSelector? <==> selector + 7 == v.gdtr.value.limit
  {
    hide Find, Peek, Verdict, Wrap, GetGDTEntry;
    GetOkIff(v, selector, scratch);
  }

  /** A table at address 0 with the given limit, in one page of guest memory, outside IA-32e mode. */
  function TableAtZero(host: HostMemory, limit: u16): View {
    View([MemoryRegion(0, 0x1000, 0)], host, Some(TableRegister(0, limit)), false)
  }

  lemma ZeroEntryMapped(host: HostMemory, limit: u16)
    ensures var v := TableAtZero(host, limit);
            ValidRegions(v.regions) && EntryMapped(v, 0, 8) && EntrySpan(v, 0, 8) == Span(0, 8)
  {
    var v := TableAtZero(host, limit);
    assert v.regions[..0] == [];
  }

  /** Departure: an entry of type 0 is refused, and its eight bytes are in the table all the same. */
  lemma RefusedEntryIsWritten(host: HostMemory, entry: GDTEntry)
    requires entry[5] == 0
    ensures var v := TableAtZero(host, 0xFF);
            ValidRegions(v.regions) && !SetGDTEntry(v, 0, entry).status.OK?
            && Peek(SetGDTEntry(v, 0, entry).host, Span(0, 8)) == entry[..8]
  {
    hide SetGDTEntry, EntrySpan, Span, Find, Poke;
    ZeroEntryMapped(host, 0xFF);
    SetOkIff(TableAtZero(host, 0xFF), 0, entry);
    SpanDistinct(0, 8);
    PeekPoke(host, Span(0, 8), entry[..8]);
  }

  /** Departure: in a table with limit 0x6F the entry at 0x68, its last one, is refused. */
  lemma LastEntryIsRefused(host: HostMemory, scratch: GDTEntry)
    ensures var v := TableAtZero(host, 0x6F);
            ValidRegions(v.regions) && GetGDTEntry(v, 0x68, scratch).status == InvalidSelector
  {
  }

  /** Two blocks of at most a page with equal page offsets start at the same byte or share none. */
  lemma BlocksSameOrApart(h: u64, k: u64, m: nat, n: nat)
    requires h % 4096 == k % 4096 && h != k && m <= 4096 && n <= 4096
    ensures forall p | p in Span(h, m) :: p !in Span(k, n)
  {
    forall i, j | 0 <= i < m && 0 <= j < n
      ensures Span(h, m)[i] != Span(k, n)[j]
    {
      if h < k {
        OffsetsApart(h, k);
        NearbyDiffer(h + i, k + j);
      } else {
        OffsetsApart(k, h);
        NearbyDiffer(k + j, h + i);
      }
    }
  }

  lemma OffsetsApart(h: u64, k: u64)
    requires h % 4096 == k % 4096 && h < k
    ensures h + 4096 <= k && k - h <= 0xFFFF_FFFF_FFFF_F000
  {
  }

  /** Reading back eight bytes after writing eight, and then sixteen that start with the same eight. */
  lemma ReadAfterWrites(host: HostMemory, h: u64, k: u64, entry: GDTEntry)
    requires h % 4096 == k % 4096
    ensures Peek(Poke(host, Span(h, 8), entry[..8]), Span(h, 8)) == entry[..8]
    ensures var host' := Poke(Poke(host, Span(h, 8), entry[..8]), Span(k, 16), entry);
            Peek(host', Span(h, 8)) == entry[..8] && Peek(host', Span(k, 16)) == entry
  {
    var host1 := Poke(host, Span(h, 8), entry[..8]);
    var host2 := Poke(host1, Span(k, 16), entry);
    SpanDistinct(h, 8);
    SpanDistinct(k, 16);
    PeekPoke(host, Span(h, 8), entry[..8]);
    PeekPoke(host1, Span(k, 16), entry);
    hide Poke;
    if h == k {
      SpanAppend(h, 8, 8);
      assert Peek(host2, Span(h, 8)) == Peek(host2, Span(k, 16))[..8];
    } else {
      BlocksSameOrApart(h, k, 8, 16);
      forall i | 0 <= i < 8
        ensures host2[Span(h, 8)[i]] == host1[Span(h, 8)[i]]
      {
        PokeElsewhere(host1, Span(k, 16), entry, Span(h, 8)[i]);
      }
      assert Peek(host2, Span(h, 8)) == Peek(host1, Span(h, 8));
    }
  }

  /** The entry takes all 16 bytes. */
  predicate TakesWholeEntry(v: View, entry: GDTEntry) {
    v.ia32e && !IsCodeOrData(entry)
  }

  /**
   * After a successful SetGDTEntry, GetGDTEntry on the same selector succeeds and
   * returns the same 8 or 16 bytes, wherever the table lies: also across a page
   * boundary whose two sides resolve to different, overlapping or aliased regions.
   */
  lemma SetThenGet(v: View, selector: u16, entry: GDTEntry, scratch: GDTEntry)
    requires ValidRegions(v.regions) && SetGDTEntry(v, selector, entry).status.OK?
    ensures var got := GetGDTEntry(v.(host := SetGDTEntry(v, selector, entry).host), selector, scratch);
            got.status.OK? && got.entry == if TakesWholeEntry(v, entry) then entry else entry[..8] + scratch[8..]
  {
    hide Poke, Peek, Find, Span, Wrap, IsExtended, IsReserved;
    var at := Wrap(v.gdtr.value.base + selector);
    FoundAccess(v.regions, at, 8);
    FoundAccess(v.regions, at, 16);
    var h := FindAccess(v.regions, at, 8).value.host;
    var k := if FindAccess(v.regions, at, 16).Some? then FindAccess(v.regions, at, 16).value.host else h;
    ReadAfterWrites(v.host, h, k, entry);
    VerdictOfStart(v, selector, v.gdtr.value.limit, entry);
  }

  lemma VerdictOfStart(v: View, selector: u16, limit: u16, entry: GDTEntry)
    ensures Verdict(v, selector, limit, entry[..8]) == Verdict(v, selector, limit, entry)
  {
  }

  // ----- Segments -------------------------------------------------------------------

  datatype Segment = Segment(selector: u16, base: u64, limit: u32, attributes: u16)

  lemma GettersInRange(e: GDTEntry)
    ensures 0 <= BaseBits(e) < 0x1_0000_0000 && 0 <= GetLimit(e) < 0x1_0000_0000
    ensures 0 <= GetAttributes(e) < 0x1_0000 && 0 <= GetSystemBase(e) < 0x1_0000_0000_0000_0000
  {
    hide BaseBits, GetLimit, GetAttributes, Extended, Or, And, Shl;
    FieldValues(e);
    LimitValue(e);
    BaseRanges(e);
    ExtendedValue(BaseBits(e), TopBits(e));
  }

  /** The descriptor types whose base ReadSegment reads: LDT and TSS, and the 16-bit TSS outside IA-32e mode. */
  predicate HasSystemBase(v: View, e: GDTEntry) {
    var t := DescriptorType(e);
    !IsCodeOrData(e) && (t == 0x2 || t == 0x9 || t == 0xB || ((t == 0x1 || t == 0x3) && !v.ia32e))
  }

  /** ReadSegment; None stands for the error statuses. */
  function ReadSegment(v: View, selector: u16, scratch: GDTEntry): Option<Segment>
    requires ValidRegions(v.regions)
  {
    var got := GetGDTEntry(v, selector, scratch);
    if !got.status.OK? then None
    else
      var e := got.entry;
      GettersInRange(e);
      if IsCodeOrData(e) then Some(Segment(selector, BaseBits(e), GetLimit(e), GetAttributes(e)))
      else if HasSystemBase(v, e) then
        Some(Segment(selector, GetSystemBase(e), GetLimit(e), GetAttributes(e)))
      else None
  }

  /** ReadSegment accepts an entry exactly when it is read and is code, data, an LDT or a TSS. */
  lemma ReadSegmentIff(v: View, selector: u16, scratch: GDTEntry)
    requires ValidRegions(v.regions)
    ensures var got := GetGDTEntry(v, selector, scratch);
            ReadSegment(v, selector, scratch).Some? <==>
            && got.status.OK?
            && (|| got.entry[5] / 16 % 2 == 1 || got.entry[5] % 16 in {2, 9, 11}
                || (got.entry[5] % 16 in {1, 3} && !v.ia32e))
  {
    hide GetGDTEntry, BaseBits, GetLimit, GetAttributes, GetSystemBase;
  }

  /**
   * A code or data descriptor packed by Set and stored by SetGDTEntry is read
   * back as a segment with the given base, the scaled limit and the attributes.
   */
  lemma StoredDescriptorReadsBack(v: View, selector: u16, e: GDTEntry, base: u32, limit: u32, access: u8, flags: u8,
                                  scratch: GDTEntry)
    requires ValidRegions(v.regions) && access / 0x10 % 2 == 1
    requires SetGDTEntry(v, selector, SetDescriptor(e, base, limit, access, flags)).status.OK?
    ensures var v' := v.(host := SetGDTEntry(v, selector, SetDescriptor(e, base, limit, access, flags)).host);
            ReadSegment(v', selector, scratch) ==
            Some(Segment(selector, base, EffectiveLimit(limit, flags), access + flags % 0x10 * 0x1000))
  {
    hide SetGDTEntry, GetGDTEntry, BaseBits, GetLimit, GetAttributes, GetSystemBase, EffectiveLimit, Packed;
    var d := SetDescriptor(e, base, limit, access, flags);
    SetThenGet(v, selector, d, scratch);
    PackedAccess(e, base, limit, access, flags);
    ReadsFirstHalf(d, scratch);
    DescriptorRoundTrip(e, base, limit, access, flags);
  }

  lemma PackedAccess(e: GDTEntry, base: u32, limit: u32, access: u8, flags: u8)
    ensures SetDescriptor(e, base, limit, access, flags)[5] == access
  {
  }

  /** The getters of a code or data descriptor look at its first eight bytes only. */
  lemma ReadsFirstHalf(e: GDTEntry, scratch: GDTEntry)
    ensures var d := e[..8] + scratch[8..];
            && BaseBits(d) == BaseBits(e) && GetLimit(d) == GetLimit(e) && GetAttributes(d) == GetAttributes(e)
            && IsCodeOrData(d) == IsCodeOrData(e)
  {
    hide Or, And, Shl;
  }

  /** Reading back a stored LDT or TSS descriptor: outside IA-32e mode the caller's bytes stay in its second half. */
  lemma StoredSystemSegment(v: View, selector: u16, e: GDTEntry, scratch: GDTEntry)
    requires ValidRegions(v.regions) && HasSystemBase(v, e) && SetGDTEntry(v, selector, e).status.OK?
    ensures var v' := v.(host := SetGDTEntry(v, selector, e).host);
            var d: GDTEntry := if v.ia32e then e else e[..8] + scratch[8..];
            && 0 <= GetLimit(e) < 0x1_0000_0000 && 0 <= GetAttributes(e) < 0x1_0000
            && 0 <= GetSystemBase(d) < 0x1_0000_0000_0000_0000
            && ReadSegment(v', selector, scratch) ==
               Some(Segment(selector, GetSystemBase(d), GetLimit(e), GetAttributes(e)))
  {
    hide SetGDTEntry, GetGDTEntry, BaseBits, GetLimit, GetAttributes, GetSystemBase;
    SetThenGet(v, selector, e, scratch);
    ReadsFirstHalf(e, scratch);
    GettersInRange(if v.ia32e then e else e[..8] + scratch[8..]);
  }

  /**
   * Departure: outside IA-32e mode only eight bytes of an LDT or TSS descriptor
   * are read, but its base takes in the four bytes after them. The segment read
   * back from a stored descriptor has the descriptor's 32-bit base exactly when
   * bit 31 is clear and the caller's entry happened to hold zeros there.
   */
  lemma LegacySystemBaseIff(v: View, selector: u16, e: GDTEntry, scratch: GDTEntry)
    requires ValidRegions(v.regions) && !v.ia32e && HasSystemBase(v, e) && SetGDTEntry(v, selector, e).status.OK?
    ensures var v' := v.(host := SetGDTEntry(v, selector, e).host);
            var segment := ReadSegment(v', selector, scratch);
            && segment.Some?
            && (segment.value.base == Quad(e[2], e[3], e[4], e[7]) <==>
                e[7] < 0x80 && Quad(scratch[8], scratch[9], scratch[10], scratch[11]) == 0)
  {
    hide SetGDTEntry, ReadSegment, BaseBits, GetLimit, GetAttributes, Extended, Or, Shl;
    StoredSystemSegment(v, selector, e, scratch);
    var d: GDTEntry := e[..8] + scratch[8..];
    BaseAndTop(e, scratch);
    BaseRanges(d);
    ExtendedValue(BaseBits(d), TopBits(d));
  }

  lemma BaseAndTop(e: GDTEntry, scratch: GDTEntry)
    ensures var d: GDTEntry := e[..8] + scratch[8..];
            && BaseBits(d) == Quad(e[2], e[3], e[4], e[7])
            && TopBits(d) == Quad(scratch[8], scratch[9], scratch[10], scratch[11])
  {
    hide BaseBits, Or, Shl;
    FieldValues(e[..8] + scratch[8..]);
  }

  /** Departure: a descriptor with base zero reads as base 2^32 when bytes 8 to 11 of the caller's entry are one. */
  lemma LegacyBaseTakesScratch(e: GDTEntry, scratch: GDTEntry)
    requires Quad(e[2], e[3], e[4], e[7]) == 0 && Quad(scratch[8], scratch[9], scratch[10], scratch[11]) == 1
    ensures GetSystemBase(e[..8] + scratch[8..]) == 0x1_0000_0000
  {
    hide BaseBits, TopBits, Quad, Extended, Or, And, Shl, GetAttributes;
    var d: GDTEntry := e[..8] + scratch[8..];
    BaseAndTop(e, scratch);
    BaseRanges(d);
    ExtendedValue(BaseBits(d), TopBits(d));
  }

  /**
   * In IA-32e mode an LDT or TSS descriptor packed by Set and stored by
   * SetGDTEntry is read back with the scaled limit and the attributes, and with
   * its base exactly when bit 31 is clear or the upper half is all ones.
   */
  lemma StoredSystemDescriptorIff(v: View, selector: u16, base: u64, limit: u32, access: u8, flags: u8,
                                  scratch: GDTEntry)
    requires ValidRegions(v.regions) && v.ia32e && HasSystemBase(v, SetSystemDescriptor(base, limit, access, flags))
    requires SetGDTEntry(v, selector, SetSystemDescriptor(base, limit, access, flags)).status.OK?
    ensures var v' := v.(host := SetGDTEntry(v, selector, SetSystemDescriptor(base, limit, access, flags)).host);
            var segment := ReadSegment(v', selector, scratch);
            && segment.Some? && segment.value.limit == EffectiveLimit(limit, flags)
            && segment.value.attributes == access + flags % 0x10 * 0x1000
            && (segment.value.base == base <==>
                base % 0x1_0000_0000 < 0x8000_0000 || base / 0x1_0000_0000 == 0xFFFF_FFFF)
  {
    hide SetGDTEntry, ReadSegment, GetSystemBase, GetLimit, GetAttributes, BaseBits, Packed, EffectiveLimit;
    var d := SetSystemDescriptor(base, limit, access, flags);
    StoredSystemSegment(v, selector, d, scratch);
    SystemBaseRoundTripIff(base, limit, access, flags);
    assert SetDescriptor(d, base % 0x1_0000_0000, limit, access, flags) == d;
    DescriptorRoundTrip(d, base % 0x1_0000_0000, limit, access, flags);
  }

  // ----- KVM segment registers --------------------------------------------------------

  datatype KvmSegment = KvmSegment(selector: u16, base: u64, limit: u32, segType: nat, present: nat, dpl: nat,
                                   db: nat, s: nat, l: nat, g: nat, avl: nat)

  /** StoreSegment splits the attributes: type 3:0, system 4, privilege 6:5, present 7, then 12 to 15. */
  function StoreSegment(v: Segment): KvmSegment {
    var a := v.attributes;
    KvmSegment(v.selector, v.base, v.limit, a % 0x10, a / 0x80 % 2, a / 0x20 % 4,
               a / 0x4000 % 2, a / 0x10 % 2, a / 0x2000 % 2, a / 0x8000 % 2, a / 0x1000 % 2)
  }

  /** LoadSegment clears the attributes and sets the fields again, each within its width. */
  function LoadSegment(k: KvmSegment): Segment {
    Segment(k.selector, k.base, k.limit,
            k.segType % 0x10 + k.s % 2 * 0x10 + k.dpl % 4 * 0x20 + k.present % 2 * 0x80
            + k.avl % 2 * 0x1000 + k.l % 2 * 0x2000 + k.db % 2 * 0x4000 + k.g % 2 * 0x8000)
  }

  /** A segment survives a KVM register write and read exactly when its attribute bits 11:8 are clear. */
  lemma KvmSegmentRoundTripIff(v: Segment)
    ensures LoadSegment(StoreSegment(v)) == v <==> v.attributes / 0x100 % 0x10 == 0
  {
    var a := v.attributes;
    var low, middle, high := a % 0x100, a / 0x100 % 0x10, a / 0x1000;
    assert a == low + (middle + high * 0x10) * 0x100;
    KeptAttributes(v);
    hide StoreSegment, LoadSegment;
    LowFields(low, middle + high * 0x10);
    HighFields(a);
    LowNibbles(low);
    HighNibble(high);
    assert LoadSegment(StoreSegment(v)).attributes == low + high * 0x1000;
  }

  /** The fields KVM gets for a segment read from a descriptor packed with an access byte and flags. */
  lemma KvmFieldsOfDescriptor(selector: u16, base: u32, limit: u32, access: u8, flags: u8)
    ensures var k := StoreSegment(Segment(selector, base, EffectiveLimit(limit, flags),
                                          access + flags % 0x10 * 0x1000));
            && k.selector == selector && k.base == base && k.limit == EffectiveLimit(limit, flags)
            && k.segType == access % 16 && k.s == access / 16 % 2 && k.dpl == access / 32 % 4
            && k.present == access / 128
            && k.avl == flags % 16 % 2 && k.l == flags % 16 / 2 % 2 && k.db == flags % 16 / 4 % 2
            && k.g == flags % 16 / 8
  {
    LowFields(access, flags % 0x10 * 0x10);
    FlagFields(access, flags % 0x10);
  }

  lemma FlagFields(access: u8, flags: nat)
    requires flags < 0x10
    ensures var a := access + flags * 0x1000;
            && a / 0x1000 % 2 == flags % 2 && a / 0x2000 % 2 == flags / 2 % 2
            && a / 0x4000 % 2 == flags / 4 % 2 && a / 0x8000 % 2 == flags / 8
  {
    HighFields(access + flags * 0x1000);
    DivModUnique(access + flags * 0x1000, 0x1000, flags, access);
  }

  lemma KeptAttributes(v: Segment)
    ensures var w, a := LoadSegment(StoreSegment(v)), v.attributes;
            && w == v.(attributes := w.attributes)
            && w.attributes == a % 0x10 + a / 0x10 % 2 * 0x10 + a / 0x20 % 4 * 0x20 + a / 0x80 % 2 * 0x80
                               + a / 0x1000 % 2 * 0x1000 + a / 0x2000 % 2 * 0x2000
                               + a / 0x4000 % 2 * 0x4000 + a / 0x8000 % 2 * 0x8000
  {
    var a := v.attributes;
    Truncated(a);
    Truncated(a / 0x10);
    Truncated(a / 0x20);
    Truncated(a / 0x80);
    Truncated(a / 0x1000);
    Truncated(a / 0x2000);
    Truncated(a / 0x4000);
    Truncated(a / 0x8000);
  }

  lemma Truncated(x: nat)
    ensures x % 2 % 2 == x % 2 && x % 4 % 4 == x % 4 && x % 0x10 % 0x10 == x % 0x10
  {
  }

  lemma LowFields(low: nat, x: nat)
    requires low < 0x100
    ensures var a := low + x * 0x100;
            && a % 0x10 == low % 0x10 && a / 0x10 % 2 == low / 0x10 % 2
            && a / 0x20 % 4 == low / 0x20 % 4 && a / 0x80 % 2 == low / 0x80
  {
    TypeField(low, x);
    SystemField(low, x);
    PrivilegeField(low, x);
    PresentField(low, x);
  }

  lemma TypeField(low: nat, x: nat)
    ensures (low + x * 0x100) % 0x10 == low % 0x10
  {
    DivModUnique(low + x * 0x100, 0x10, low / 0x10 + x * 0x10, low % 0x10);
  }

  lemma SystemField(low: nat, x: nat)
    ensures (low + x * 0x100) / 0x10 % 2 == low / 0x10 % 2
  {
    var i := low / 0x10;
    DivModUnique(low + x * 0x100, 0x10, i + x * 0x10, low % 0x10);
    DivModUnique(i + x * 0x10, 2, i / 2 + x * 8, i % 2);
  }

  lemma PrivilegeField(low: nat, x: nat)
    ensures (low + x * 0x100) / 0x20 % 4 == low / 0x20 % 4
  {
    var i := low / 0x20;
    DivModUnique(low + x * 0x100, 0x20, i + x * 8, low % 0x20);
    DivModUnique(i + x * 8, 4, i / 4 + x * 2, i % 4);
  }

  lemma PresentField(low: nat, x: nat)
    requires low < 0x100
    ensures (low + x * 0x100) / 0x80 % 2 == low / 0x80
  {
    var i := low / 0x80;
    DivModUnique(low + x * 0x100, 0x80, i + x * 2, low % 0x80);
    DivModUnique(i + x * 2, 2, x, i);
  }

  lemma HighFields(a: nat)
    requires a < 0x1_0000
    ensures a / 0x2000 == a / 0x1000 / 2 && a / 0x4000 == a / 0x1000 / 4 && a / 0x8000 == a / 0x1000 / 8
  {
  }

  lemma LowNibbles(low: nat)
    requires low < 0x100
    ensures low == low % 0x10 + low / 0x10 % 2 * 0x10 + low / 0x20 % 4 * 0x20 + low / 0x80 * 0x80
  {
  }

  lemma HighNibble(high: nat)
    requires high < 0x10
    ensures high == high % 2 + high / 2 % 2 * 2 + high / 4 % 2 * 4 + high / 8 % 2 * 8
  {
  }

  /** So the segment read from a stored code or data descriptor survives it. */
  lemma StoredDescriptorSurvivesKvm(selector: u16, base: u32, limit: u32, access: u8, flags: u8)
    ensures var v := Segment(selector, base, EffectiveLimit(limit, flags), access + flags % 0x10 * 0x1000);
            LoadSegment(StoreSegment(v)) == v
  {
    hide StoreSegment, LoadSegment;
    KvmSegmentRoundTripIff(Segment(selector, base, EffectiveLimit(limit, flags), access + flags % 0x10 * 0x1000));
  }
}
