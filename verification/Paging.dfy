/**
 * Linear address translation: the walks of the unpaged, 32-bit, PAE and 4-level
 * modes, over page tables that live in guest physical memory.
 */
module Paging {
  import opened Bits
  import opened ByteBuffers
  import opened Wrappers
  import opened Regions
  import opened PhysicalMemory

  /** The registers translation depends on; None stands for a register read that fails. */
  datatype ControlRegisters = ControlRegisters(cr0: Option<u64>, cr3: Option<u64>, cr4: Option<u64>, efer: Option<u64>)

  /** Everything a translation reads. */
  datatype Guest = Guest(regions: seq<MemoryRegion>, host: HostMemory, regs: ControlRegisters)

  // ----- Addresses and entries ---------------------------------------------------

  function Ones(k: nat): nat {
    Pow2(k) - 1
  }

  /** Table bits above, linear address bits below. */
  function BuildAddress(linAddrBits: nat, tableBits: nat, linAddr: nat, tableAddr: nat): u64
    requires linAddrBits > 0 && tableBits > 0 && linAddrBits + tableBits <= 64
  {
    Concatenates(linAddrBits, tableBits, linAddr, tableAddr);
    Or(Shl(And(tableAddr, Ones(tableBits)), linAddrBits), And(linAddr, Ones(linAddrBits)))
  }

  lemma ProductBound(t: nat, m: nat, p: nat, l: nat)
    requires t < m && l < p
    ensures 0 <= t * p && t * p + l < m * p
  {
    Scale(t + 1, m, p);
    Scale(t, t, p);
  }

  lemma Concatenates(linAddrBits: nat, tableBits: nat, linAddr: nat, tableAddr: nat)
    requires linAddrBits + tableBits <= 64
    ensures var r := (tableAddr % Pow2(tableBits)) * Pow2(linAddrBits) + linAddr % Pow2(linAddrBits);
            && Or(Shl(And(tableAddr, Ones(tableBits)), linAddrBits), And(linAddr, Ones(linAddrBits))) == r
            && 0 <= r < 0x1_0000_0000_0000_0000
  {
    hide And, Or, Pow2;
    AndLowMask(tableAddr, tableBits);
    AndLowMask(linAddr, linAddrBits);
    var t, l := And(tableAddr, Ones(tableBits)), And(linAddr, Ones(linAddrBits));
    ProductBound(t, Pow2(tableBits), Pow2(linAddrBits), l);
    PowerSum(linAddrBits, tableBits);
    Pow2Monotone(linAddrBits + tableBits, 64);
    Powers();
    OrDisjoint(t, l, linAddrBits);
  }

  /** A bit field of an entry, least significant bits first. */
  function Field(entry: nat, low: nat, width: nat): nat {
    Shr(entry, low) % Pow2(width)
  }

  predicate Flag(x: nat, bit: nat) {
    Field(x, bit, 1) == 1
  }

  /** The size of a paging entry in bytes. */
  type EntrySize = x: int | x == 4 || x == 8 witness 8

  datatype Entry = Entry(addr: u64, size: EntrySize)

  /** The host addresses of the bytes an entry is read from. */
  function EntryBytes(g: Guest, e: Entry): seq<u64>
  {
    match FindAccess(g.regions, e.addr, e.size)
    case None => []
    case Some(a) => Span(a.host, a.size)
  }

  /** Reads an entry; None when it cannot be read or is not valid. */
  function GetEntry(g: Guest, e: Entry): Option<nat>
  {
    if FindAccess(g.regions, e.addr, e.size).None? then None
    else
      var entry := FromBytes(Peek(g.host, EntryBytes(g, e)));
      if Flag(entry, 0) then Some(entry) else None
  }

  /** The entries a translation looked at, in order, and its result. */
  datatype Walk = Walk(entries: seq<Entry>, paddr: Option<u64>) {
    function After(e: Entry): Walk {
      Walk([e] + entries, paddr)
    }
  }

  // ----- The walks as the code does them -----------------------------------------

  /** 32-bit paging, once the page directory entry is read. */
  function TableWalk32(g: Guest, laddr: u64, cr4: u64, pde: nat): Walk {
    if Flag(pde, 7) && Flag(cr4, 4) then
      Walk([], Some(BuildAddress(22, 18, laddr, Or(Shl(Field(pde, 13, 8), 10), Field(pde, 22, 10)))))
    else
      var pteAt := Entry(BuildAddress(12, 20, Shl(Shr(laddr, 12), 2), Field(pde, 12, 20)), 4);
      match GetEntry(g, pteAt)
      case None => Walk([pteAt], None)
      case Some(pte) => Walk([pteAt], Some(BuildAddress(12, 20, laddr, Field(pte, 12, 20))))
  }

  function LinearToPhysical32(g: Guest, laddr: u64): Walk
    requires laddr < 0x1_0000_0000
  {
    if g.regs.cr3.None? || g.regs.cr4.None? then Walk([], None) else
    var cr3 := g.regs.cr3.value % 0x1_0000_0000;
    var pdeAt := Entry(BuildAddress(12, 20, Shl(Shr(laddr, 22), 2), Shr(cr3, 12)), 4);
    match GetEntry(g, pdeAt)
    case None => Walk([pdeAt], None)
    case Some(pde) => TableWalk32(g, laddr, g.regs.cr4.value, pde).After(pdeAt)
  }

  /** PAE and 4-level paging, once the page directory entry is read. */
  function TableWalk(g: Guest, laddr: u64, pde: nat): Walk {
    if Flag(pde, 7) then Walk([], Some(BuildAddress(21, 31, laddr, Field(pde, 21, 31))))
    else
      var pteAt := Entry(BuildAddress(12, 40, Shl(Shr(laddr, 12), 3), Field(pde, 12, 40)), 8);
      match GetEntry(g, pteAt)
      case None => Walk([pteAt], None)
      case Some(pte) => Walk([pteAt], Some(BuildAddress(12, 40, laddr, Field(pte, 12, 40))))
  }

  /** A page directory entry and what follows; index holds the address bits that select it. */
  function DirectoryWalk(g: Guest, laddr: u64, index: nat, directory: nat): Walk {
    var pdeAt := Entry(BuildAddress(12, 40, index, directory), 8);
    match GetEntry(g, pdeAt)
    case None => Walk([pdeAt], None)
    case Some(pde) => TableWalk(g, laddr, pde).After(pdeAt)
  }

  /** The page directory index comes from bits 11:3 of the linear address, as in the code. */
  function LinearToPhysicalPAE(g: Guest, laddr: u64): Walk
    requires laddr < 0x1_0000_0000
  {
    if g.regs.cr3.None? then Walk([], None) else
    var pdpteAt := Entry(BuildAddress(5, 27, Shl(Shr(laddr, 30), 3), Shr(g.regs.cr3.value, 5)), 8);
    match GetEntry(g, pdpteAt)
    case None => Walk([pdpteAt], None)
    case Some(pdpte) => DirectoryWalk(g, laddr, And(laddr, Not(7)), Field(pdpte, 12, 40)).After(pdpteAt)
  }

  /** 4-level paging, once the page directory pointer table entry is read. */
  function PointerWalk(g: Guest, laddr: u64, pdpte: nat): Walk {
    if Flag(pdpte, 7) then Walk([], Some(BuildAddress(30, 22, laddr, Field(pdpte, 30, 22))))
    else DirectoryWalk(g, laddr, Shl(Shr(laddr, 21), 3), Field(pdpte, 12, 40))
  }

  function PML4Walk(g: Guest, laddr: u64, pml4e: nat): Walk {
    var pdpteAt := Entry(BuildAddress(12, 40, Shl(Shr(laddr, 30), 3), Field(pml4e, 12, 40)), 8);
    match GetEntry(g, pdpteAt)
    case None => Walk([pdpteAt], None)
    case Some(pdpte) => PointerWalk(g, laddr, pdpte).After(pdpteAt)
  }

  function LinearToPhysical4Level(g: Guest, laddr: u64): Walk {
    if g.regs.cr3.None? then Walk([], None) else
    var pml4eAt := Entry(BuildAddress(12, 40, Shl(Shr(laddr, 39), 3), Shr(g.regs.cr3.value, 12)), 8);
    match GetEntry(g, pml4eAt)
    case None => Walk([pml4eAt], None)
    case Some(pml4e) => PML4Walk(g, laddr, pml4e).After(pml4eAt)
  }

  datatype Mode = Unknown | Unpaged | ThirtyTwoBit | PAE | FourLevel

  /** The mode LinearToPhysical chooses: CR0.PG, then CR4.PAE, then EFER.LME. */
  function PagingMode(regs: ControlRegisters): Mode {
    if regs.cr0.None? || regs.cr4.None? || regs.efer.None? then Unknown
    else if !Flag(regs.cr0.value, 31) then Unpaged
    else if !Flag(regs.cr4.value, 5) then ThirtyTwoBit
    else if !Flag(regs.efer.value, 8) then PAE
    else FourLevel
  }

  function LinearToPhysical(g: Guest, laddr: u64): Walk
  {
    match PagingMode(g.regs)
    case Unknown => Walk([], None)
    case Unpaged =>
      PageMasks(laddr);
      Walk([], Some(And(laddr, 0xFFFF_FFFF)))
    case ThirtyTwoBit => LinearToPhysical32(g, laddr % 0x1_0000_0000)
    case PAE => LinearToPhysicalPAE(g, laddr % 0x1_0000_0000)
    case FourLevel => LinearToPhysical4Level(g, laddr)
  }

  lemma PageMasks(x: u64)
    ensures And(x, 0xFFFF_FFFF) == x % 0x1_0000_0000
  {
    Powers();
    AndLowMask(x, 32);
  }

  // ----- The walks as the processor manual states them ---------------------------

  /** Bits high:low of x. */
  function BitRange(x: nat, high: nat, low: nat): nat
    requires low <= high
  {
    (x / Pow2(low)) % Pow2(high - low + 1)
  }

  /** The newest-wins byte at a physical address. */
  function PhysicalByte(g: Guest, a: int): Option<byte> {
    match Resolve(g.regions, a)
    case None => None
    case Some(h) => Some(g.host[h])
  }

  /** A little-endian value in physical memory; None when some byte is not mapped. */
  function PhysicalValue(g: Guest, a: int, width: nat): Option<nat>
    decreases width
  {
    if width == 0 then Some(0)
    else match PhysicalByte(g, a)
      case None => None
      case Some(b) => match PhysicalValue(g, a + 1, width - 1)
        case None => None
        case Some(rest) => Some(b + 256 * rest)
  }

  /** A present entry: its P flag, bit 0, is set. */
  function Present(g: Guest, a: int, width: nat): Option<nat> {
    match PhysicalValue(g, a, width)
    case None => None
    case Some(e) => if BitRange(e, 0, 0) == 1 then Some(e) else None
  }

  /** Intel SDM volume 3A, section 4.3: 32-bit paging, with 40-bit PSE physical addresses for 4-MByte pages. */
  function Sdm32(g: Guest, cr3: nat, pse: bool, l: nat): Option<nat> {
    match Present(g, BitRange(cr3, 31, 12) * 0x1000 + BitRange(l, 31, 22) * 4, 4)
    case None => None
    case Some(pde) => SdmTable32(g, pde, pse, l)
  }

  function SdmTable32(g: Guest, pde: nat, pse: bool, l: nat): Option<nat> {
    if pse && BitRange(pde, 7, 7) == 1 then
      Some(BitRange(pde, 20, 13) * 0x1_0000_0000 + BitRange(pde, 31, 22) * 0x40_0000 + BitRange(l, 21, 0))
    else match Present(g, BitRange(pde, 31, 12) * 0x1000 + BitRange(l, 21, 12) * 4, 4)
      case None => None
      case Some(pte) => Some(BitRange(pte, 31, 12) * 0x1000 + BitRange(l, 11, 0))
  }

  /** The levels PAE and 4-level paging share: a page directory at the given base. */
  function SdmDirectory(g: Guest, directory: nat, l: nat): Option<nat> {
    match Present(g, directory + BitRange(l, 29, 21) * 8, 8)
    case None => None
    case Some(pde) => SdmTable(g, pde, l)
  }

  function SdmTable(g: Guest, pde: nat, l: nat): Option<nat> {
    if BitRange(pde, 7, 7) == 1 then Some(BitRange(pde, 51, 21) * 0x20_0000 + BitRange(l, 20, 0))
    else match Present(g, BitRange(pde, 51, 12) * 0x1000 + BitRange(l, 20, 12) * 8, 8)
      case None => None
      case Some(pte) => Some(BitRange(pte, 51, 12) * 0x1000 + BitRange(l, 11, 0))
  }

  /** Section 4.4.2: PAE paging. */
  function SdmPAE(g: Guest, cr3: nat, l: nat): Option<nat> {
    match Present(g, BitRange(cr3, 31, 5) * 0x20 + BitRange(l, 31, 30) * 8, 8)
    case None => None
    case Some(pdpte) => SdmDirectory(g, BitRange(pdpte, 51, 12) * 0x1000, l)
  }

  /** Section 4.5: 4-level paging. */
  function Sdm4Level(g: Guest, cr3: nat, l: nat): Option<nat> {
    match Present(g, BitRange(cr3, 51, 12) * 0x1000 + BitRange(l, 47, 39) * 8, 8)
    case None => None
    case Some(pml4e) => SdmPML4(g, pml4e, l)
  }

  function SdmPML4(g: Guest, pml4e: nat, l: nat): Option<nat> {
    match Present(g, BitRange(pml4e, 51, 12) * 0x1000 + BitRange(l, 38, 30) * 8, 8)
    case None => None
    case Some(pdpte) =>
      if BitRange(pdpte, 7, 7) == 1 then Some(BitRange(pdpte, 51, 30) * 0x4000_0000 + BitRange(l, 29, 0))
      else SdmDirectory(g, BitRange(pdpte, 51, 12) * 0x1000, l)
  }

  // ----- The walks agree -----------------------------------------------------------

  /** What an aligned entry's access finds, and the value in the per-byte physical memory. */
  lemma EntryAccess(g: Guest, e: Entry)
    requires ValidRegions(g.regions) && e.addr % e.size == 0
    ensures match Resolve(g.regions, e.addr)
            case None => FindAccess(g.regions, e.addr, e.size) == None && PhysicalValue(g, e.addr, e.size) == None
            case Some(h) =>
              && FindAccess(g.regions, e.addr, e.size) == Some(Access(h, e.size))
              && PhysicalValue(g, e.addr, e.size) == Some(FromBytes(Peek(g.host, Span(h, e.size))))
  {
    hide PhysicalValue, Resolve, FromBytes, Peek, Span, Find, Wrap;
    EntryInPage(e.addr, e.size);
    hide InPage;
    InPageAccess(g.regions, e.addr, e.size);
    match Resolve(g.regions, e.addr)
    case None => UnmappedValue(g, e.addr, e.size);
    case Some(h) => ValueOfSpan(g, e.addr, h, e.size);
  }

  /** An aligned entry read through the region list is the value in the per-byte physical memory. */
  lemma EntryIsPresent(g: Guest, e: Entry)
    requires ValidRegions(g.regions) && e.addr % e.size == 0
    ensures GetEntry(g, e) == Present(g, e.addr, e.size)
  {
    hide PhysicalValue, Resolve, FromBytes, Peek, Span, FindAccess, Flag, BitRange;
    EntryAccess(g, e);
    if FindAccess(g.regions, e.addr, e.size).Some? {
      FlagIsBit(FromBytes(Peek(g.host, EntryBytes(g, e))), 0);
    }
  }

  lemma EntryInPage(addr: nat, size: EntrySize)
    requires addr % size == 0
    ensures InPage(addr, size)
  {
    assert addr == addr / size * size;
    ScaledIndex(addr / size);
  }

  lemma UnmappedValue(g: Guest, a: int, n: nat)
    requires n > 0
    ensures Resolve(g.regions, a).None? ==> PhysicalValue(g, a, n) == None
  {
  }

  lemma {:induction false} ValueOfSpan(g: Guest, a: int, h: u64, n: nat)
    requires forall x | a <= x < a + n :: Resolve(g.regions, x) == Some(Wrap(h + (x - a)))
    ensures PhysicalValue(g, a, n) == Some(FromBytes(Peek(g.host, Span(h, n))))
    decreases n
  {
    hide Resolve, Peek, Span, FromBytes, Wrap;
    if n == 0 {
      EmptyValue(g.host, h);
    } else {
      var h' := Wrap(h + 1);
      forall x | a + 1 <= x < a + n
        ensures Resolve(g.regions, x) == Some(Wrap(h' + (x - (a + 1))))
      {
        WrapWrap(h + 1, x - (a + 1));
      }
      ValueOfSpan(g, a + 1, h', n - 1);
      SpanTail(g.host, h, n);
      WrapWord(h);
      assert Resolve(g.regions, a) == Some(Wrap(h + (a - a)));
      FirstByte(g.host[h], Peek(g.host, Span(h', n - 1)));
    }
  }

  lemma EmptyValue(host: HostMemory, h: u64)
    ensures FromBytes(Peek(host, Span(h, 0))) == 0
  {
  }

  lemma WrapWord(h: u64)
    ensures Wrap(h) == h
  {
  }

  lemma FirstByte(b: byte, rest: seq<byte>)
    ensures FromBytes([b] + rest) == b + 256 * FromBytes(rest)
  {
    assert ([b] + rest)[1..] == rest;
  }

  lemma SpanTail(host: HostMemory, h: u64, n: nat)
    requires n > 0
    ensures Peek(host, Span(h, n)) == [host[h]] + Peek(host, Span(Wrap(h + 1), n - 1))
  {
    SpanAppend(h, 1, n - 1);
    assert Span(h, 1)[0] == Wrap(h + 0) == h;
  }

  /** Scaling an index and masking it to a page keeps its low bits. */
  lemma ScaledIndex(i: nat)
    ensures (i * 4) % 0x1000 == (i % 0x400) * 4 && (i * 8) % 0x1000 == (i % 0x200) * 8
  {
    DivModUnique(i * 4, 0x1000, i / 0x400, (i % 0x400) * 4);
    DivModUnique(i * 8, 0x1000, i / 0x200, (i % 0x200) * 8);
  }

  lemma ShiftBounds(x: u64, s: nat)
    requires s >= 12
    ensures Shr(x, s) <= x / 0x1000
    ensures Shl(Shr(x, s), 3) == Shr(x, s) * 8 && Shl(Shr(x, s), 2) == Shr(x, s) * 4
  {
    var p := Pow2(s);
    assert Pow2(3) == 8 && Pow2(2) == 4 && Pow2(12) == 0x1000;
    Pow2Monotone(12, s);
    DivModOf(x, p);
    var i := x / p;
    Scale(0x1000, p, i);
    assert i * 0x1000 <= i * p;
  }

  /** The address of a table entry: table base bits above, index bits times the entry size below. */
  lemma EntryAddress(x: u64, s: nat, table: nat)
    requires s >= 12
    ensures BuildAddress(12, 20, Shl(Shr(x, s), 2), table) == (table % Pow2(20)) * 0x1000 + (Shr(x, s) % Pow2(10)) * 4
    ensures BuildAddress(12, 40, Shl(Shr(x, s), 3), table) == (table % Pow2(40)) * 0x1000 + (Shr(x, s) % Pow2(9)) * 8
  {
    ShiftBounds(x, s);
    ScaledIndex(Shr(x, s));
    Concatenates(12, 20, Shl(Shr(x, s), 2), table);
    Concatenates(12, 40, Shl(Shr(x, s), 3), table);
    assert Pow2(12) == 0x1000 && Pow2(10) == 0x400 && Pow2(9) == 0x200;
  }

  lemma EntryAligned(x: u64, s: nat, table: nat)
    requires s >= 12
    ensures BuildAddress(12, 20, Shl(Shr(x, s), 2), table) % 4 == 0
    ensures BuildAddress(12, 40, Shl(Shr(x, s), 3), table) % 8 == 0
  {
    hide *;
    EntryAddress(x, s, table);
    MultipleOf(table % Pow2(20), Shr(x, s) % Pow2(10));
    MultipleOf(table % Pow2(40), Shr(x, s) % Pow2(9));
  }

  lemma MultipleOf(t: nat, i: nat)
    ensures (t * 0x1000 + i * 4) % 4 == 0 && (t * 0x1000 + i * 8) % 8 == 0
  {
    DivModUnique(t * 0x1000 + i * 4, 4, t * 0x400 + i, 0);
    DivModUnique(t * 0x1000 + i * 8, 8, t * 0x200 + i, 0);
  }

  /** A field is already within its width. */
  lemma FieldBelow(entry: nat, low: nat, width: nat)
    ensures 0 <= Field(entry, low, width) < Pow2(width)
    ensures Field(entry, low, width) % Pow2(width) == Field(entry, low, width)
  {
    ModSmall(Field(entry, low, width), Pow2(width));
  }

  lemma LowRange(x: nat, high: nat)
    ensures BitRange(x, high, 0) == x % Pow2(high + 1)
  {
    assert Pow2(0) == 1;
  }

  /** A page address: the entry's frame bits above, the low bits of the linear address below. */
  lemma PageAddress(offsetBits: nat, frameBits: nat, laddr: nat, entry: nat)
    requires offsetBits > 0 && frameBits > 0 && offsetBits + frameBits <= 64
    ensures BuildAddress(offsetBits, frameBits, laddr, Field(entry, offsetBits, frameBits)) ==
            Field(entry, offsetBits, frameBits) * Pow2(offsetBits) + BitRange(laddr, offsetBits - 1, 0)
  {
    FieldBelow(entry, offsetBits, frameBits);
    LowRange(laddr, offsetBits - 1);
    Concatenates(offsetBits, frameBits, laddr, Field(entry, offsetBits, frameBits));
  }

  /** An entry the code computes is the entry the manual names. */
  lemma ShortEntryAgrees(g: Guest, laddr: u64, s: nat, table: nat)
    requires ValidRegions(g.regions) && s >= 12
    ensures GetEntry(g, Entry(BuildAddress(12, 20, Shl(Shr(laddr, s), 2), table), 4)) ==
            Present(g, (table % Pow2(20)) * 0x1000 + (Shr(laddr, s) % Pow2(10)) * 4, 4)
  {
    hide BuildAddress, GetEntry, Present, Pow2, Shl, Shr;
    EntryAddress(laddr, s, table);
    EntryAligned(laddr, s, table);
    EntryIsPresent(g, Entry(BuildAddress(12, 20, Shl(Shr(laddr, s), 2), table), 4));
  }

  lemma LongEntryAgrees(g: Guest, laddr: u64, s: nat, table: nat)
    requires ValidRegions(g.regions) && s >= 12
    ensures GetEntry(g, Entry(BuildAddress(12, 40, Shl(Shr(laddr, s), 3), table), 8)) ==
            Present(g, (table % Pow2(40)) * 0x1000 + (Shr(laddr, s) % Pow2(9)) * 8, 8)
  {
    hide BuildAddress, GetEntry, Present, Pow2, Shl, Shr;
    EntryAddress(laddr, s, table);
    EntryAligned(laddr, s, table);
    EntryIsPresent(g, Entry(BuildAddress(12, 40, Shl(Shr(laddr, s), 3), table), 8));
  }

  /** A page address: the entry's frame, and the low bits of the linear address. */
  lemma PagesAgree(laddr: u64, e: nat)
    ensures BuildAddress(30, 22, laddr, Field(e, 30, 22)) == BitRange(e, 51, 30) * 0x4000_0000 + BitRange(laddr, 29, 0)
    ensures BuildAddress(21, 31, laddr, Field(e, 21, 31)) == BitRange(e, 51, 21) * 0x20_0000 + BitRange(laddr, 20, 0)
    ensures BuildAddress(12, 40, laddr, Field(e, 12, 40)) == BitRange(e, 51, 12) * 0x1000 + BitRange(laddr, 11, 0)
    ensures BuildAddress(12, 20, laddr, Field(e, 12, 20)) == BitRange(e, 31, 12) * 0x1000 + BitRange(laddr, 11, 0)
  {
    Powers();
    PageAddress(30, 22, laddr, e);
    PageAddress(21, 31, laddr, e);
    PageAddress(12, 40, laddr, e);
    PageAddress(12, 20, laddr, e);
  }

  lemma TableAgrees(g: Guest, laddr: u64, pde: nat)
    requires ValidRegions(g.regions)
    ensures TableWalk(g, laddr, pde).paddr == SdmTable(g, pde, laddr)
  {
    hide BuildAddress, GetEntry, Present, Pow2, Shl, And, Or;
    FieldBelow(pde, 12, 40);
    LongEntryAgrees(g, laddr, 12, Field(pde, 12, 40));
    PagesAgree(laddr, pde);
    var pte := GetEntry(g, Entry(BuildAddress(12, 40, Shl(Shr(laddr, 12), 3), Field(pde, 12, 40)), 8));
    if pte.Some? {
      PagesAgree(laddr, pte.value);
    }
  }

  /** The directory level, entered with the index the manual prescribes. */
  lemma DirectoryAgrees(g: Guest, laddr: u64, directory: nat)
    requires ValidRegions(g.regions)
    ensures DirectoryWalk(g, laddr, Shl(Shr(laddr, 21), 3), directory).paddr ==
            SdmDirectory(g, (directory % Pow2(40)) * 0x1000, laddr)
  {
    hide BuildAddress, GetEntry, Present, Pow2, Shl, And, Or, TableWalk, SdmTable;
    LongEntryAgrees(g, laddr, 21, directory);
    var pde := GetEntry(g, Entry(BuildAddress(12, 40, Shl(Shr(laddr, 21), 3), directory), 8));
    if pde.Some? {
      TableAgrees(g, laddr, pde.value);
    }
  }

  lemma PML4Agrees(g: Guest, laddr: u64, pml4e: nat)
    requires ValidRegions(g.regions)
    ensures PML4Walk(g, laddr, pml4e).paddr == SdmPML4(g, pml4e, laddr)
  {
    hide BuildAddress, GetEntry, Present, Pow2, Shl, And, Or, DirectoryWalk, SdmDirectory;
    FieldBelow(pml4e, 12, 40);
    LongEntryAgrees(g, laddr, 30, Field(pml4e, 12, 40));
    var pdpte := GetEntry(g, Entry(BuildAddress(12, 40, Shl(Shr(laddr, 30), 3), Field(pml4e, 12, 40)), 8));
    if pdpte.Some? {
      PagesAgree(laddr, pdpte.value);
      FieldBelow(pdpte.value, 12, 40);
      DirectoryAgrees(g, laddr, Field(pdpte.value, 12, 40));
    }
  }

  /** The 4-level walk of the code is the walk of section 4.5, on every memory and register state. */
  lemma FourLevelAgrees(g: Guest, laddr: u64)
    requires ValidRegions(g.regions)
    ensures LinearToPhysical4Level(g, laddr).paddr ==
            match g.regs.cr3
            case None => None
            case Some(cr3) => Sdm4Level(g, cr3, laddr)
  {
    hide BuildAddress, GetEntry, Present, Pow2, Shl, And, Or, PML4Walk, SdmPML4;
    if g.regs.cr3.Some? {
      var cr3 := g.regs.cr3.value;
      LongEntryAgrees(g, laddr, 39, Shr(cr3, 12));
      var pml4e := GetEntry(g, Entry(BuildAddress(12, 40, Shl(Shr(laddr, 39), 3), Shr(cr3, 12)), 8));
      if pml4e.Some? {
        PML4Agrees(g, laddr, pml4e.value);
      }
    }
  }

  lemma Table32Agrees(g: Guest, laddr: u64, cr4: u64, pde: nat)
    requires ValidRegions(g.regions) && laddr < 0x1_0000_0000
    ensures TableWalk32(g, laddr, cr4, pde).paddr == SdmTable32(g, pde, Flag(cr4, 4), laddr)
  {
    hide BuildAddress, GetEntry, Present, Pow2, Shl, And, Or;
    LargePage32(laddr, pde);
    FieldBelow(pde, 12, 20);
    ShortEntryAgrees(g, laddr, 12, Field(pde, 12, 20));
    var pte := GetEntry(g, Entry(BuildAddress(12, 20, Shl(Shr(laddr, 12), 2), Field(pde, 12, 20)), 4));
    if pte.Some? {
      PagesAgree(laddr, pte.value);
    }
  }

  /** The 32-bit walk of the code is the walk of section 4.3. */
  lemma ThirtyTwoBitAgrees(g: Guest, laddr: u64)
    requires ValidRegions(g.regions) && laddr < 0x1_0000_0000
    ensures LinearToPhysical32(g, laddr).paddr ==
            if g.regs.cr3.None? || g.regs.cr4.None? then None
            else Sdm32(g, g.regs.cr3.value, Flag(g.regs.cr4.value, 4), laddr)
  {
    hide BuildAddress, GetEntry, Present, Pow2, Shl, And, Or, TableWalk32, SdmTable32;
    if g.regs.cr3.Some? && g.regs.cr4.Some? {
      var cr3 := g.regs.cr3.value % 0x1_0000_0000;
      LowHalf(g.regs.cr3.value);
      ShortEntryAgrees(g, laddr, 22, Shr(cr3, 12));
      var pde := GetEntry(g, Entry(BuildAddress(12, 20, Shl(Shr(laddr, 22), 2), Shr(cr3, 12)), 4));
      if pde.Some? {
        Table32Agrees(g, laddr, g.regs.cr4.value, pde.value);
      }
    }
  }

  lemma LowHalf(cr3: u64)
    ensures Shr(cr3 % 0x1_0000_0000, 12) % Pow2(20) == BitRange(cr3, 31, 12)
  {
    assert Pow2(12) == 0x1000 && Pow2(20) == 0x10_0000;
    var high, low := cr3 / 0x1_0000_0000, cr3 % 0x1_0000_0000;
    assert cr3 / 0x1000 == high * 0x10_0000 + low / 0x1000;
  }

  /** The 40-bit physical address of a 4-MByte page. */
  lemma LargePage32(laddr: u64, pde: nat)
    ensures BuildAddress(22, 18, laddr, Or(Shl(Field(pde, 13, 8), 10), Field(pde, 22, 10))) ==
            BitRange(pde, 20, 13) * 0x1_0000_0000 + BitRange(pde, 31, 22) * 0x40_0000 + BitRange(laddr, 21, 0)
  {
    var high, low := Field(pde, 13, 8), Field(pde, 22, 10);
    FieldBelow(pde, 13, 8);
    FieldBelow(pde, 22, 10);
    LowRange(laddr, 21);
    LargePageParts(laddr, high, low);
  }

  lemma LargePageParts(laddr: u64, high: nat, low: nat)
    requires high < Pow2(8) && low < Pow2(10)
    ensures BuildAddress(22, 18, laddr, Or(Shl(high, 10), low)) ==
            high * 0x1_0000_0000 + low * 0x40_0000 + laddr % Pow2(22)
  {
    hide And;
    LargePagePowers();
    OrDisjoint(high, low, 10);
    assert Shl(high, 10) == high * 0x400;
    var table := high * 0x400 + low;
    hide Or;
    Concatenates(22, 18, laddr, table);
    ModSmall(table, 0x4_0000);
  }

  lemma LargePagePowers()
    ensures Pow2(8) == 0x100 && Pow2(10) == 0x400 && Pow2(18) == 0x4_0000 && Pow2(22) == 0x40_0000
  {
  }

  // ----- Translation is uniform on a page -------------------------------------------

  predicate SamePage(a: int, b: int) {
    a / 4096 == b / 4096
  }

  lemma {:induction false} ShrSamePage(a: nat, b: nat, s: nat)
    requires SamePage(a, b) && s >= 12
    ensures Shr(a, s) == Shr(b, s)
  {
    if s == 12 {
      assert Pow2(12) == 4096;
    } else {
      ShrSamePage(a, b, s - 1);
      ShrHalves(a, s);
      ShrHalves(b, s);
    }
  }

  lemma ShrHalves(x: nat, s: nat)
    requires s > 0
    ensures Shr(x, s) == Shr(x, s - 1) / 2
  {
    var p := Pow2(s - 1);
    var q, r := x / p, x % p;
    DivModOf(x, p);
    DivModOf(q, 2);
    Regroup(q / 2, q % 2, p, r);
    DivModUnique(x, 2 * p, q / 2, (q % 2) * p + r);
  }

  lemma Regroup(h: nat, b: nat, p: nat, r: nat)
    requires b < 2 && r < p
    ensures (2 * h + b) * p + r == h * (2 * p) + (b * p + r) && 0 <= b * p + r < 2 * p
  {
  }

  /** A page or larger frame keeps the low 12 bits of the linear address and one page for one page. */
  lemma FramesUniform(a: nat, b: nat, frame: nat)
    requires SamePage(a, b)
    ensures var x, y := BuildAddress(12, 40, a, frame), BuildAddress(12, 40, b, frame);
            SamePage(x, y) && x % 4096 == a % 4096
    ensures var x, y := BuildAddress(12, 20, a, frame), BuildAddress(12, 20, b, frame);
            SamePage(x, y) && x % 4096 == a % 4096
    ensures var x, y := BuildAddress(21, 31, a, frame), BuildAddress(21, 31, b, frame);
            SamePage(x, y) && x % 4096 == a % 4096
    ensures var x, y := BuildAddress(22, 18, a, frame), BuildAddress(22, 18, b, frame);
            SamePage(x, y) && x % 4096 == a % 4096
    ensures var x, y := BuildAddress(30, 22, a, frame), BuildAddress(30, 22, b, frame);
            SamePage(x, y) && x % 4096 == a % 4096
  {
    hide BuildAddress;
    FrameUniform(12, 40, 0x1, a, b, frame);
    FrameUniform(12, 20, 0x1, a, b, frame);
    FrameUniform(21, 31, 0x200, a, b, frame);
    FrameUniform(22, 18, 0x400, a, b, frame);
    FrameUniform(30, 22, 0x4_0000, a, b, frame);
  }

  lemma FrameUniform(offsetBits: nat, frameBits: nat, pages: nat, a: nat, b: nat, frame: nat)
    requires SamePage(a, b)
    requires (offsetBits, pages) == (12, 0x1) || (offsetBits, pages) == (21, 0x200)
          || (offsetBits, pages) == (22, 0x400) || (offsetBits, pages) == (30, 0x4_0000)
    requires frameBits > 0 && offsetBits + frameBits <= 64
    ensures var x, y := BuildAddress(offsetBits, frameBits, a, frame), BuildAddress(offsetBits, frameBits, b, frame);
            SamePage(x, y) && x % 4096 == a % 4096
  {
    hide And, Or;
    Concatenates(offsetBits, frameBits, a, frame);
    Concatenates(offsetBits, frameBits, b, frame);
    FramePowers();
    var t := frame % Pow2(frameBits);
    hide Pow2;
    LowPages(t, pages, a);
    LowPages(t, pages, b);
  }

  lemma FramePowers()
    ensures Pow2(12) == 0x1000 && Pow2(21) == 0x20_0000 && Pow2(22) == 0x40_0000 && Pow2(30) == 0x4000_0000
  {
    Powers();
  }

  /** The page number and offset of a frame's address. */
  lemma LowPages(t: nat, pages: nat, a: nat)
    requires pages > 0
    ensures var x := t * (pages * 4096) + a % (pages * 4096);
            x / 4096 == t * pages + (a / 4096) % pages && x % 4096 == a % 4096
  {
    var q, o := a / 4096, a % 4096;
    var u, v := q / pages, q % pages;
    DivModOf(q, pages);
    assert a == u * (pages * 4096) + (v * 4096 + o);
    DivModUnique(a, pages * 4096, u, v * 4096 + o);
    assert t * (pages * 4096) == (t * pages) * 4096;
    DivModUnique(t * (pages * 4096) + (v * 4096 + o), 4096, t * pages + v, o);
  }

  /** Two walks go the same way: the same entries, and both fail or both reach one page at their own offsets. */
  predicate Uniform(a: nat, v: Walk, b: nat, w: Walk) {
    && v.entries == w.entries
    && (v.paddr.None? <==> w.paddr.None?)
    && (v.paddr.Some? ==>
          && SamePage(v.paddr.value, w.paddr.value)
          && v.paddr.value % 4096 == a % 4096 && w.paddr.value % 4096 == b % 4096)
  }

  lemma TableUniform(g: Guest, a: u64, b: u64, cr4: u64, pde: nat)
    requires SamePage(a, b)
    ensures Uniform(a, TableWalk(g, a, pde), b, TableWalk(g, b, pde))
    ensures Uniform(a, TableWalk32(g, a, cr4, pde), b, TableWalk32(g, b, cr4, pde))
  {
    hide BuildAddress, GetEntry, Pow2, Shl, Shr, And, Or, Field;
    ShrSamePage(a, b, 12);
    forall frame: nat
      ensures Uniform(a, Walk([], Some(BuildAddress(12, 40, a, frame))),
                      b, Walk([], Some(BuildAddress(12, 40, b, frame))))
      ensures Uniform(a, Walk([], Some(BuildAddress(12, 20, a, frame))),
                      b, Walk([], Some(BuildAddress(12, 20, b, frame))))
      ensures Uniform(a, Walk([], Some(BuildAddress(21, 31, a, frame))),
                      b, Walk([], Some(BuildAddress(21, 31, b, frame))))
      ensures Uniform(a, Walk([], Some(BuildAddress(22, 18, a, frame))),
                      b, Walk([], Some(BuildAddress(22, 18, b, frame))))
    {
      FramesUniform(a, b, frame);
      FramesUniform(b, a, frame);
    }
  }

  lemma FourLevelUniform(g: Guest, a: u64, b: u64)
    requires SamePage(a, b)
    ensures Uniform(a, LinearToPhysical4Level(g, a), b, LinearToPhysical4Level(g, b))
  {
    hide BuildAddress, GetEntry, Pow2, Shl, Shr, And, Or, Field, TableWalk;
    ShrSamePage(a, b, 39);
    ShrSamePage(a, b, 30);
    ShrSamePage(a, b, 21);
    forall frame: nat
      ensures Uniform(a, Walk([], Some(BuildAddress(30, 22, a, frame))),
                      b, Walk([], Some(BuildAddress(30, 22, b, frame))))
    {
      FramesUniform(a, b, frame);
      FramesUniform(b, a, frame);
    }
    forall pde
      ensures Uniform(a, TableWalk(g, a, pde), b, TableWalk(g, b, pde))
    {
      TableUniform(g, a, b, 0, pde);
    }
  }

  lemma ThirtyTwoBitUniform(g: Guest, a: u64, b: u64)
    requires SamePage(a, b) && a < 0x1_0000_0000 && b < 0x1_0000_0000
    ensures Uniform(a, LinearToPhysical32(g, a), b, LinearToPhysical32(g, b))
  {
    hide BuildAddress, GetEntry, Pow2, Shl, Shr, And, Or, Field, TableWalk32;
    ShrSamePage(a, b, 22);
    if g.regs.cr4.Some? {
      forall pde
        ensures Uniform(a, TableWalk32(g, a, g.regs.cr4.value, pde), b, TableWalk32(g, b, g.regs.cr4.value, pde))
      {
        TableUniform(g, a, b, g.regs.cr4.value, pde);
      }
    }
  }

  lemma LowHalfPage(a: nat, b: nat)
    requires SamePage(a, b)
    ensures SamePage(a % 0x1_0000_0000, b % 0x1_0000_0000)
    ensures (a % 0x1_0000_0000) % 4096 == a % 4096 && (b % 0x1_0000_0000) % 4096 == b % 4096
  {
    LowPages(0, 0x10_0000, a);
    LowPages(0, 0x10_0000, b);
  }

  /**
   * In the unpaged, 32-bit and 4-level modes, two addresses in one 4-KByte page
   * walk the same entries and both fail or both reach the same physical page,
   * each keeping its own low 12 bits.
   */
  lemma TranslationIsPageUniform(g: Guest, a: u64, b: u64)
    requires SamePage(a, b) && !PagingMode(g.regs).PAE?
    ensures Uniform(a, LinearToPhysical(g, a), b, LinearToPhysical(g, b))
  {
    hide LinearToPhysical32, LinearToPhysical4Level, And, Flag;
    match PagingMode(g.regs)
    case Unpaged =>
      PageMasks(a);
      PageMasks(b);
      LowHalfPage(a, b);
    case ThirtyTwoBit =>
      LowHalfPage(a, b);
      ThirtyTwoBitUniform(g, a % 0x1_0000_0000, b % 0x1_0000_0000);
    case FourLevel => FourLevelUniform(g, a, b);
    case _ =>
  }

  // ----- What a translation reads ---------------------------------------------------

  /** The hosts agree on every byte of every entry. */
  ghost predicate AgreeOn(g: Guest, host: HostMemory, entries: seq<Entry>) {
    forall e, p | e in entries && p in EntryBytes(g, e) :: host[p] == g.host[p]
  }

  lemma EntryFrame(g: Guest, host: HostMemory, entries: seq<Entry>, e: Entry)
    requires AgreeOn(g, host, entries) && e in entries
    ensures GetEntry(g.(host := host), e) == GetEntry(g, e)
  {
    assert EntryBytes(g.(host := host), e) == EntryBytes(g, e);
    assert Peek(host, EntryBytes(g, e)) == Peek(g.host, EntryBytes(g, e));
  }

  lemma TableFrame(g: Guest, host: HostMemory, entries: seq<Entry>, laddr: u64, cr4: u64, pde: nat)
    requires AgreeOn(g, host, entries)
    ensures (forall e | e in TableWalk(g, laddr, pde).entries :: e in entries) ==>
              TableWalk(g.(host := host), laddr, pde) == TableWalk(g, laddr, pde)
    ensures (forall e | e in TableWalk32(g, laddr, cr4, pde).entries :: e in entries) ==>
              TableWalk32(g.(host := host), laddr, cr4, pde) == TableWalk32(g, laddr, cr4, pde)
  {
    hide BuildAddress, GetEntry, Pow2, Shl, Shr, And, Or, Field, AgreeOn;
    forall e | e in entries
      ensures GetEntry(g.(host := host), e) == GetEntry(g, e)
    {
      EntryFrame(g, host, entries, e);
    }
    var e, e' := Entry(BuildAddress(12, 40, Shl(Shr(laddr, 12), 3), Field(pde, 12, 40)), 8),
                 Entry(BuildAddress(12, 20, Shl(Shr(laddr, 12), 2), Field(pde, 12, 20)), 4);
    assert e in [e] && e' in [e'];
  }

  lemma AfterEntries(e: Entry, w: Walk, entries: seq<Entry>)
    requires forall x | x in w.After(e).entries :: x in entries
    ensures e in entries && forall x | x in w.entries :: x in entries
  {
    assert w.After(e).entries[0] == e;
    forall x | x in w.entries
      ensures x in entries
    {
      assert x in w.After(e).entries;
    }
  }

  lemma DirectoryFrame(g: Guest, host: HostMemory, entries: seq<Entry>, laddr: u64, index: nat, directory: nat)
    requires AgreeOn(g, host, entries)
    requires forall e | e in DirectoryWalk(g, laddr, index, directory).entries :: e in entries
    ensures DirectoryWalk(g.(host := host), laddr, index, directory) == DirectoryWalk(g, laddr, index, directory)
  {
    hide BuildAddress, GetEntry, Pow2, Shl, Shr, And, Or, Field, AgreeOn, TableWalk;
    var e := Entry(BuildAddress(12, 40, index, directory), 8);
    match GetEntry(g, e)
    case None =>
      assert e in [e];
      EntryFrame(g, host, entries, e);
    case Some(pde) =>
      AfterEntries(e, TableWalk(g, laddr, pde), entries);
      EntryFrame(g, host, entries, e);
      TableFrame(g, host, entries, laddr, 0, pde);
  }

  lemma PML4Frame(g: Guest, host: HostMemory, entries: seq<Entry>, laddr: u64, pml4e: nat)
    requires AgreeOn(g, host, entries)
    requires forall e | e in PML4Walk(g, laddr, pml4e).entries :: e in entries
    ensures PML4Walk(g.(host := host), laddr, pml4e) == PML4Walk(g, laddr, pml4e)
  {
    hide BuildAddress, GetEntry, Pow2, Shl, Shr, And, Or, Field, AgreeOn, DirectoryWalk;
    var e := Entry(BuildAddress(12, 40, Shl(Shr(laddr, 30), 3), Field(pml4e, 12, 40)), 8);
    match GetEntry(g, e)
    case None =>
      assert e in [e];
      EntryFrame(g, host, entries, e);
    case Some(pdpte) =>
      AfterEntries(e, PointerWalk(g, laddr, pdpte), entries);
      EntryFrame(g, host, entries, e);
      if !Flag(pdpte, 7) {
        DirectoryFrame(g, host, entries, laddr, Shl(Shr(laddr, 21), 3), Field(pdpte, 12, 40));
      }
  }

  lemma FourLevelFrame(g: Guest, host: HostMemory, entries: seq<Entry>, laddr: u64)
    requires AgreeOn(g, host, entries)
    requires forall e | e in LinearToPhysical4Level(g, laddr).entries :: e in entries
    ensures LinearToPhysical4Level(g.(host := host), laddr) == LinearToPhysical4Level(g, laddr)
  {
    hide BuildAddress, GetEntry, Pow2, Shl, Shr, And, Or, Field, AgreeOn, PML4Walk;
    if g.regs.cr3.Some? {
      var e := Entry(BuildAddress(12, 40, Shl(Shr(laddr, 39), 3), Shr(g.regs.cr3.value, 12)), 8);
      match GetEntry(g, e)
      case None =>
        assert e in [e];
        EntryFrame(g, host, entries, e);
      case Some(pml4e) =>
        AfterEntries(e, PML4Walk(g, laddr, pml4e), entries);
        EntryFrame(g, host, entries, e);
        PML4Frame(g, host, entries, laddr, pml4e);
    }
  }

  lemma PAEFrame(g: Guest, host: HostMemory, entries: seq<Entry>, laddr: u64)
    requires laddr < 0x1_0000_0000 && AgreeOn(g, host, entries)
    requires forall e | e in LinearToPhysicalPAE(g, laddr).entries :: e in entries
    ensures LinearToPhysicalPAE(g.(host := host), laddr) == LinearToPhysicalPAE(g, laddr)
  {
    hide BuildAddress, GetEntry, Pow2, Shl, Shr, And, Or, Field, AgreeOn, DirectoryWalk;
    if g.regs.cr3.Some? {
      var e := Entry(BuildAddress(5, 27, Shl(Shr(laddr, 30), 3), Shr(g.regs.cr3.value, 5)), 8);
      match GetEntry(g, e)
      case None =>
        assert e in [e];
        EntryFrame(g, host, entries, e);
      case Some(pdpte) =>
        AfterEntries(e, DirectoryWalk(g, laddr, And(laddr, Not(7)), Field(pdpte, 12, 40)), entries);
        EntryFrame(g, host, entries, e);
        DirectoryFrame(g, host, entries, laddr, And(laddr, Not(7)), Field(pdpte, 12, 40));
    }
  }

  lemma ThirtyTwoBitFrame(g: Guest, host: HostMemory, entries: seq<Entry>, laddr: u64)
    requires laddr < 0x1_0000_0000 && AgreeOn(g, host, entries)
    requires forall e | e in LinearToPhysical32(g, laddr).entries :: e in entries
    ensures LinearToPhysical32(g.(host := host), laddr) == LinearToPhysical32(g, laddr)
  {
    hide BuildAddress, GetEntry, Pow2, Shl, Shr, And, Or, Field, AgreeOn, TableWalk32;
    if g.regs.cr3.Some? && g.regs.cr4.Some? {
      var e := Entry(BuildAddress(12, 20, Shl(Shr(laddr, 22), 2), Shr(g.regs.cr3.value % 0x1_0000_0000, 12)), 4);
      match GetEntry(g, e)
      case None =>
        assert e in [e];
        EntryFrame(g, host, entries, e);
      case Some(pde) =>
        AfterEntries(e, TableWalk32(g, laddr, g.regs.cr4.value, pde), entries);
        EntryFrame(g, host, entries, e);
        TableFrame(g, host, entries, laddr, g.regs.cr4.value, pde);
    }
  }

  /** A translation depends on host memory only through the entries it walks. */
  lemma TranslationFrame(g: Guest, host: HostMemory, laddr: u64)
    requires AgreeOn(g, host, LinearToPhysical(g, laddr).entries)
    ensures LinearToPhysical(g.(host := host), laddr) == LinearToPhysical(g, laddr)
  {
    hide LinearToPhysical32, LinearToPhysicalPAE, LinearToPhysical4Level, AgreeOn, And, Flag;
    var entries := LinearToPhysical(g, laddr).entries;
    match PagingMode(g.regs)
    case ThirtyTwoBit => ThirtyTwoBitFrame(g, host, entries, laddr % 0x1_0000_0000);
    case PAE => PAEFrame(g, host, entries, laddr % 0x1_0000_0000);
    case FourLevel => FourLevelFrame(g, host, entries, laddr);
    case _ =>
  }

  // ----- PAE paging: where the code departs from the manual ---------------------------

  /** The directory entry the code selects: bits 11:3 of the linear address instead of bits 29:21. */
  lemma PaeDirectoryIndex(laddr: u64, directory: nat)
    ensures BuildAddress(12, 40, And(laddr, Not(7)), directory) ==
            (directory % Pow2(40)) * 0x1000 + BitRange(laddr, 11, 3) * 8
  {
    assert Pow2(3) == 8 && Pow2(9) == 0x200 && Pow2(12) == 0x1000;
    Powers();
    AndHighMask(laddr, 3, 64);
    hide And, Or, Pow2;
    var index := And(laddr, Not(7));
    assert index == (laddr / 8) * 8;
    Concatenates(12, 40, index, directory);
    ScaledIndex(laddr / 8);
  }

  lemma PaePointerAddress(laddr: u64, cr3: u64)
    ensures var at := BuildAddress(5, 27, Shl(Shr(laddr, 30), 3), Shr(cr3, 5));
            && at == BitRange(cr3, 31, 5) * 0x20 + BitRange(laddr, 31, 30) * 8
            && at % 8 == 0
  {
    hide And, Or;
    assert Pow2(2) == 4 && Pow2(5) == 0x20;
    ShiftBounds(laddr, 30);
    Concatenates(5, 27, Shl(Shr(laddr, 30), 3), Shr(cr3, 5));
    hide Pow2, BuildAddress;
    ByteIndex(BitRange(cr3, 31, 5), Shr(laddr, 30));
  }

  lemma ByteIndex(frame: nat, i: nat)
    ensures (i * 8) % 0x20 == (i % 4) * 8
    ensures (frame * 0x20 + (i % 4) * 8) % 8 == 0
  {
  }

  lemma PaePointerAgrees(g: Guest, laddr: u64, cr3: u64)
    requires ValidRegions(g.regions)
    ensures GetEntry(g, Entry(BuildAddress(5, 27, Shl(Shr(laddr, 30), 3), Shr(cr3, 5)), 8)) ==
            Present(g, BitRange(cr3, 31, 5) * 0x20 + BitRange(laddr, 31, 30) * 8, 8)
  {
    hide BuildAddress, GetEntry, Present, Pow2, Shl, And, Or;
    PaePointerAddress(laddr, cr3);
    EntryIsPresent(g, Entry(BuildAddress(5, 27, Shl(Shr(laddr, 30), 3), Shr(cr3, 5)), 8));
  }

  /** Where bits 11:3 of the address equal bits 29:21, the PAE walk of the code is that of section 4.4.2. */
  lemma PaeAgrees(g: Guest, laddr: u64)
    requires ValidRegions(g.regions) && laddr < 0x1_0000_0000 && g.regs.cr3.Some?
    requires BitRange(laddr, 11, 3) == BitRange(laddr, 29, 21)
    ensures LinearToPhysicalPAE(g, laddr).paddr == SdmPAE(g, g.regs.cr3.value, laddr)
  {
    hide BuildAddress, GetEntry, Present, Pow2, Shl, And, Or, SdmDirectory, TableWalk;
    var cr3 := g.regs.cr3.value;
    PaePointerAgrees(g, laddr, cr3);
    var pdpte := GetEntry(g, Entry(BuildAddress(5, 27, Shl(Shr(laddr, 30), 3), Shr(cr3, 5)), 8));
    if pdpte.Some? {
      var directory := Field(pdpte.value, 12, 40);
      FieldBelow(pdpte.value, 12, 40);
      DirectoryAgrees(g, laddr, directory);
      PaeDirectoryIndex(laddr, directory);
      EntryAddress(laddr, 21, directory);
    }
  }

  /** Section 4.1.1: the mode is chosen by CR0.PG, CR4.PAE and IA32_EFER.LME. */
  function SdmTranslate(g: Guest, cr0: nat, cr3: nat, cr4: nat, efer: nat, l: nat): Option<nat> {
    if BitRange(cr0, 31, 31) == 0 then Some(BitRange(l, 31, 0))
    else if BitRange(cr4, 5, 5) == 0 then Sdm32(g, cr3, BitRange(cr4, 4, 4) == 1, BitRange(l, 31, 0))
    else if BitRange(efer, 8, 8) == 0 then SdmPAE(g, cr3, BitRange(l, 31, 0))
    else Sdm4Level(g, cr3, l)
  }

  lemma FlagIsBit(x: nat, bit: nat)
    ensures Flag(x, bit) <==> BitRange(x, bit, bit) == 1
    ensures Flag(x, bit) <==> BitRange(x, bit, bit) != 0
  {
    assert Pow2(1) == 2;
    DivModOf(x, Pow2(bit));
  }

  lemma LowHalfRanges(l: nat)
    ensures BitRange(l, 31, 0) == l % 0x1_0000_0000
    ensures BitRange(BitRange(l, 31, 0), 11, 3) == BitRange(l, 11, 3)
    ensures BitRange(BitRange(l, 31, 0), 29, 21) == BitRange(l, 29, 21)
  {
    LowRange(l, 31);
    LowHalfPowers();
    hide Pow2;
    LowHalfQuotients(l / 0x1_0000_0000, l % 0x1_0000_0000);
  }

  lemma LowHalfPowers()
    ensures Pow2(3) == 8 && Pow2(9) == 0x200 && Pow2(21) == 0x20_0000 && Pow2(32) == 0x1_0000_0000
  {
    Powers();
  }

  lemma LowHalfQuotients(high: nat, low: nat)
    requires low < 0x1_0000_0000
    ensures var l := high * 0x1_0000_0000 + low;
            l / 8 % 0x200 == low / 8 % 0x200 && l / 0x20_0000 % 0x200 == low / 0x20_0000 % 0x200
  {
    var l := high * 0x1_0000_0000 + low;
    var i, j := low / 8, low / 0x20_0000;
    DivModUnique(l, 8, high * 0x2000_0000 + i, low % 8);
    DivModUnique(l, 0x20_0000, high * 0x800 + j, low % 0x20_0000);
    DivModUnique(high * 0x2000_0000 + i, 0x200, high * 0x10_0000 + i / 0x200, i % 0x200);
    DivModUnique(high * 0x800 + j, 0x200, high * 4 + j / 0x200, j % 0x200);
  }

  /**
   * The whole translation, mode choice included, is the manual's, except in PAE
   * mode for addresses whose bits 11:3 and 29:21 differ.
   */
  lemma TranslationAgrees(g: Guest, laddr: u64)
    requires ValidRegions(g.regions)
    requires g.regs.cr0.Some? && g.regs.cr3.Some? && g.regs.cr4.Some? && g.regs.efer.Some?
    requires PagingMode(g.regs).PAE? ==> BitRange(laddr, 11, 3) == BitRange(laddr, 29, 21)
    ensures LinearToPhysical(g, laddr).paddr ==
            SdmTranslate(g, g.regs.cr0.value, g.regs.cr3.value, g.regs.cr4.value, g.regs.efer.value, laddr)
  {
    hide LinearToPhysical32, LinearToPhysicalPAE, LinearToPhysical4Level, Sdm32, SdmPAE, Sdm4Level, Flag, BitRange, And;
    var r := g.regs;
    FlagIsBit(r.cr0.value, 31);
    FlagIsBit(r.cr4.value, 5);
    FlagIsBit(r.cr4.value, 4);
    FlagIsBit(r.efer.value, 8);
    LowHalfRanges(laddr);
    match PagingMode(r)
    case Unpaged => PageMasks(laddr);
    case ThirtyTwoBit => ThirtyTwoBitAgrees(g, laddr % 0x1_0000_0000);
    case PAE => PaeAgrees(g, laddr % 0x1_0000_0000);
    case FourLevel => FourLevelAgrees(g, laddr);
  }

  /**
   * A translation fails without reading memory when CR0, CR4 or EFER cannot be
   * read, and with paging enabled also when CR3 cannot; without paging it needs
   * no CR3.
   */
  lemma TranslationNeedsRegisters(g: Guest, laddr: u64)
    ensures g.regs.cr0.None? || g.regs.cr4.None? || g.regs.efer.None? ==> LinearToPhysical(g, laddr) == Walk([], None)
    ensures g.regs.cr0.Some? && g.regs.cr4.Some? && g.regs.efer.Some? ==>
              if BitRange(g.regs.cr0.value, 31, 31) == 0
              then LinearToPhysical(g, laddr) == Walk([], Some(laddr % 0x1_0000_0000))
              else g.regs.cr3.None? ==> LinearToPhysical(g, laddr) == Walk([], None)
  {
    hide Flag, BitRange, And, GetEntry, BuildAddress;
    PageMasks(laddr);
    if g.regs.cr0.Some? {
      FlagIsBit(g.regs.cr0.value, 31);
    }
  }

  /** Tables that map one 2-MByte page, at frame 0, through directory entry i of pointer table entry k. */
  function OneLargePage(i: nat, k: nat): Guest
    requires i < 0x200 && k < 4
  {
    Guest([MemoryRegion(0, 0x2000, 0)],
          seq<byte>(0x1_0000_0000_0000_0000, a => if a == k * 8 then 1 else if a == k * 8 + 1 then 0x10
                                                  else if a == 0x1000 + i * 8 then 0x81 else 0),
          ControlRegisters(Some(0x8000_0001), Some(0), Some(0x20), Some(0)))
  }

  lemma OneLargePageByte(i: nat, k: nat, a: nat)
    requires i < 0x200 && k < 4 && a < 0x2000
    ensures PhysicalByte(OneLargePage(i, k), a) ==
            Some(if a == k * 8 then 1 else if a == k * 8 + 1 then 0x10 else if a == 0x1000 + i * 8 then 0x81 else 0)
    ensures ValidRegions(OneLargePage(i, k).regions)
  {
    ResolveNewest(OneLargePage(i, k).regions, a, 0);
  }

  lemma {:induction false} ZeroValue(g: Guest, a: int, n: nat)
    requires forall x | a <= x < a + n :: PhysicalByte(g, x) == Some(0)
    ensures PhysicalValue(g, a, n) == Some(0)
    decreases n
  {
    if n > 0 {
      ZeroValue(g, a + 1, n - 1);
    }
  }

  /** A value of which at most the two low bytes are not zero. */
  lemma SmallValue(g: Guest, a: int, n: nat, b0: byte, b1: byte)
    requires n >= 2 && PhysicalByte(g, a) == Some(b0) && PhysicalByte(g, a + 1) == Some(b1)
    requires forall x | a + 2 <= x < a + n :: PhysicalByte(g, x) == Some(0)
    ensures PhysicalValue(g, a, n) == Some(b0 + 256 * b1)
  {
    hide PhysicalByte;
    ZeroValue(g, a + 2, n - 2);
    assert PhysicalValue(g, a + 1, n - 1) == Some(b1 + 256 * 0);
  }

  lemma PresentIfOdd(g: Guest, a: int, v: nat)
    requires PhysicalValue(g, a, 8) == Some(v)
    ensures Present(g, a, 8) == if v % 2 == 1 then Some(v) else None
  {
    hide PhysicalValue;
    assert Pow2(0) == 1 && Pow2(1) == 2;
  }

  lemma OneLargePagePointer(i: nat, k: nat)
    requires i < 0x200 && k < 4
    ensures Present(OneLargePage(i, k), k * 8, 8) == Some(0x1001)
  {
    var g := OneLargePage(i, k);
    forall a: nat | k * 8 <= a < k * 8 + 8
      ensures PhysicalByte(g, a) == Some(if a == k * 8 then 1 else if a == k * 8 + 1 then 0x10 else 0)
    {
      OneLargePageByte(i, k, a);
    }
    hide OneLargePage, PhysicalByte, PhysicalValue, Present;
    SmallValue(g, k * 8, 8, 1, 0x10);
    PresentIfOdd(g, k * 8, 0x1001);
  }

  lemma OneLargePageDirectory(i: nat, k: nat, j: nat)
    requires i < 0x200 && k < 4 && j < 0x200
    ensures Present(OneLargePage(i, k), 0x1000 + j * 8, 8) == if j == i then Some(0x81) else None
  {
    var g, at := OneLargePage(i, k), 0x1000 + j * 8;
    forall a: nat | at <= a < at + 8
      ensures PhysicalByte(g, a) == Some(if a == at && j == i then 0x81 else 0)
    {
      OneLargePageByte(i, k, a);
    }
    hide OneLargePage, PhysicalByte, PhysicalValue, Present;
    SmallValue(g, at, 8, if j == i then 0x81 else 0, 0);
    PresentIfOdd(g, at, if j == i then 0x81 else 0);
  }

  lemma OneLargePageFields()
    ensures BitRange(0, 31, 5) == 0 && BitRange(0x1001, 51, 12) == 1 && BitRange(0x81, 7, 7) == 1
    ensures Field(0x1001, 12, 40) == 1 && Field(0x81, 7, 1) == 1 && 1 % Pow2(40) == 1
  {
    Powers();
    assert Pow2(7) == 0x80 && Pow2(1) == 2;
  }

  /**
   * The manual finds that page for every address that selects it, and the code
   * does so exactly when bits 11:3 of the address happen to equal the index.
   */
  lemma OneLargePageWalks(laddr: u64, i: nat, k: nat)
    requires laddr < 0x1_0000_0000 && i < 0x200 && k < 4 && k == BitRange(laddr, 31, 30)
    ensures SdmPAE(OneLargePage(i, k), 0, laddr).Some? <==> BitRange(laddr, 29, 21) == i
    ensures LinearToPhysicalPAE(OneLargePage(i, k), laddr).paddr.Some? <==> BitRange(laddr, 11, 3) == i
  {
    hide SdmPAE, LinearToPhysicalPAE, OneLargePage, BitRange;
    ManualFindsLargePage(laddr, i, k);
    CodeFindsLargePage(laddr, i, k);
  }

  lemma ManualFindsLargePage(laddr: u64, i: nat, k: nat)
    requires laddr < 0x1_0000_0000 && i < 0x200 && k < 4 && k == BitRange(laddr, 31, 30)
    ensures SdmPAE(OneLargePage(i, k), 0, laddr).Some? <==> BitRange(laddr, 29, 21) == i
  {
    hide Present, Pow2, BitRange, OneLargePage, Field;
    OneLargePageFields();
    BelowRange(laddr, 29, 21);
    OneLargePagePointer(i, k);
    OneLargePageDirectory(i, k, BitRange(laddr, 29, 21));
  }

  lemma CodeFindsLargePage(laddr: u64, i: nat, k: nat)
    requires laddr < 0x1_0000_0000 && i < 0x200 && k < 4 && k == BitRange(laddr, 31, 30)
    ensures LinearToPhysicalPAE(OneLargePage(i, k), laddr).paddr.Some? <==> BitRange(laddr, 11, 3) == i
  {
    hide Present, GetEntry, BuildAddress, Pow2, And, Or, Shl, Shr, Field, DirectoryWalk, BitRange, SamePage;
    OneLargePageFields();
    OneLargePageByte(i, k, 0);
    var g := OneLargePage(i, k);
    assert g.regs.cr3 == Some(0);
    hide OneLargePage;
    OneLargePagePointer(i, k);
    PaePointerAgrees(g, laddr, 0);
    CodeFindsDirectory(laddr, i, k);
  }

  lemma CodeFindsDirectory(laddr: u64, i: nat, k: nat)
    requires laddr < 0x1_0000_0000 && i < 0x200 && k < 4
    ensures DirectoryWalk(OneLargePage(i, k), laddr, And(laddr, Not(7)), 1).paddr.Some? <==> BitRange(laddr, 11, 3) == i
  {
    hide Present, GetEntry, BuildAddress, Pow2, And, Or, Shl, Shr, Field, BitRange, Not;
    OneLargePageFields();
    OneLargePageByte(i, k, 0);
    hide OneLargePage;
    var g := OneLargePage(i, k);
    BelowRange(laddr, 11, 3);
    OneLargePageDirectory(i, k, BitRange(laddr, 11, 3));
    PaeDirectoryIndex(laddr, 1);
    var pdeAt := Entry(BuildAddress(12, 40, And(laddr, Not(7)), 1), 8);
    assert pdeAt.addr == 0x1000 + BitRange(laddr, 11, 3) * 8;
    assert pdeAt.addr % 8 == 0;
    EntryIsPresent(g, pdeAt);
  }

  lemma BelowRange(x: nat, high: nat, low: nat)
    requires high == low + 8
    ensures 0 <= BitRange(x, high, low) < 0x200
  {
    assert Pow2(9) == 0x200;
  }

  /**
   * On every memory the PAE walk of the code gives the manual's answer for an
   * address exactly when the address's bits 11:3 equal its bits 29:21.
   */
  lemma PaeAgreesIff(laddr: u64)
    requires laddr < 0x1_0000_0000
    ensures (forall g: Guest | ValidRegions(g.regions) && g.regs.cr3.Some? ::
               LinearToPhysicalPAE(g, laddr).paddr == SdmPAE(g, g.regs.cr3.value, laddr))
            <==> BitRange(laddr, 11, 3) == BitRange(laddr, 29, 21)
  {
    if BitRange(laddr, 11, 3) == BitRange(laddr, 29, 21) {
      hide LinearToPhysicalPAE, SdmPAE, BitRange;
      forall g: Guest | ValidRegions(g.regions) && g.regs.cr3.Some?
        ensures LinearToPhysicalPAE(g, laddr).paddr == SdmPAE(g, g.regs.cr3.value, laddr)
      {
        PaeAgrees(g, laddr);
      }
    } else {
      var i, k := BitRange(laddr, 29, 21), BitRange(laddr, 31, 30);
      assert Pow2(2) == 4;
      assert k < 4;
      hide LinearToPhysicalPAE, SdmPAE, BitRange;
      BelowRange(laddr, 29, 21);
      OneLargePageWalks(laddr, i, k);
      OneLargePageByte(i, k, 0);
      var g := OneLargePage(i, k);
      assert LinearToPhysicalPAE(g, laddr).paddr != SdmPAE(g, g.regs.cr3.value, laddr);
    }
  }

  lemma PaeUniform(g: Guest, a: u64, b: u64)
    requires SamePage(a, b) && a < 0x1_0000_0000 && b < 0x1_0000_0000
    requires BitRange(a, 11, 3) == BitRange(b, 11, 3)
    ensures Uniform(a, LinearToPhysicalPAE(g, a), b, LinearToPhysicalPAE(g, b))
  {
    hide BuildAddress, GetEntry, Pow2, Shl, Shr, And, Or, Field, TableWalk, BitRange, Not;
    ShrSamePage(a, b, 30);
    forall directory: nat
      ensures BuildAddress(12, 40, And(a, Not(7)), directory) == BuildAddress(12, 40, And(b, Not(7)), directory)
    {
      PaeDirectoryIndex(a, directory);
      PaeDirectoryIndex(b, directory);
    }
    forall pde
      ensures Uniform(a, TableWalk(g, a, pde), b, TableWalk(g, b, pde))
    {
      TableUniform(g, a, b, 0, pde);
    }
  }

  /**
   * In PAE mode two addresses of one page are translated alike on every memory
   * exactly when they agree on bits 11:3.
   */
  lemma PaeUniformIff(a: u64, b: u64)
    requires SamePage(a, b) && a < 0x1_0000_0000 && b < 0x1_0000_0000
    ensures (forall g: Guest | ValidRegions(g.regions) ::
               Uniform(a, LinearToPhysicalPAE(g, a), b, LinearToPhysicalPAE(g, b)))
            <==> BitRange(a, 11, 3) == BitRange(b, 11, 3)
  {
    hide LinearToPhysicalPAE, BitRange, SamePage;
    if BitRange(a, 11, 3) == BitRange(b, 11, 3) {
      forall g: Guest | ValidRegions(g.regions)
        ensures Uniform(a, LinearToPhysicalPAE(g, a), b, LinearToPhysicalPAE(g, b))
      {
        PaeUniform(g, a, b);
      }
    } else {
      var i, k := BitRange(a, 11, 3), BitRange(a, 31, 30);
      TopBitsOfPage(a, b);
      BelowRange(a, 11, 3);
      OneLargePageWalks(a, i, k);
      OneLargePageWalks(b, i, k);
      OneLargePageByte(i, k, 0);
      var g := OneLargePage(i, k);
      assert !Uniform(a, LinearToPhysicalPAE(g, a), b, LinearToPhysicalPAE(g, b));
    }
  }

  lemma TopBitsOfPage(a: nat, b: nat)
    requires SamePage(a, b)
    ensures BitRange(a, 31, 30) == BitRange(b, 31, 30) < 4
  {
    ShrSamePage(a, b, 30);
    assert Pow2(2) == 4;
  }

  /** Departure: in PAE mode the code may map one address of a page and fail on another. */
  lemma PaeIsNotPageUniform()
    ensures var g := OneLargePage(0, 0);
            && ValidRegions(g.regions) && SamePage(0, 8)
            && LinearToPhysicalPAE(g, 0).paddr.Some? && LinearToPhysicalPAE(g, 8).paddr.None?
  {
    hide LinearToPhysicalPAE, SdmPAE;
    assert Pow2(2) == 4 && Pow2(3) == 8 && Pow2(9) == 0x200;
    assert Pow2(30) == 0x4000_0000 by { Powers(); }
    OneLargePageByte(0, 0, 0);
    OneLargePageWalks(0, 0, 0);
    OneLargePageWalks(8, 0, 0);
  }
}
