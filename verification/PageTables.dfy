/** Installing page table entries in guest memory, and translating through them. */
module PageTables {
  import opened Bits
  import opened ByteBuffers
  import opened Wrappers
  import opened Regions
  import opened PhysicalMemory
  import opened Paging

  /** An entry and the value to store there. */
  datatype Stored = Stored(at: Entry, value: nat)

  /** Stores the entries one after the other. */
  function Install(g: Guest, stores: seq<Stored>): Guest
    requires Mapped(g, stores)
    decreases |stores|
  {
    if stores == [] then g
    else
      var s := stores[0];
      Install(g.(host := Poke(g.host, EntryBytes(g, s.at), ToBytes(s.value, s.at.size))), stores[1..])
  }

  /** The entry lies in guest memory. */
  predicate Mapped(g: Guest, stores: seq<Stored>) {
    forall i | 0 <= i < |stores| :: |EntryBytes(g, stores[i].at)| == stores[i].at.size
  }

  /** Present entries of their own width, in bytes that no two of them share. */
  ghost predicate Installable(g: Guest, stores: seq<Stored>) {
    && Mapped(g, stores)
    && (forall i | 0 <= i < |stores| :: stores[i].at.addr % stores[i].at.size == 0)
    && (forall i | 0 <= i < |stores| :: stores[i].value % 2 == 1 && stores[i].value < Pow2(8 * stores[i].at.size))
    && forall i, j, p | 0 <= i < j < |stores| && p in EntryBytes(g, stores[i].at) :: p !in EntryBytes(g, stores[j].at)
  }

  /** The entry after s is stored. */
  function StoreOne(g: Guest, s: Stored): Guest
    requires Mapped(g, [s])
  {
    assert [s][0] == s;
    g.(host := Poke(g.host, EntryBytes(g, s.at), ToBytes(s.value, s.at.size)))
  }

  /** Where an entry lies depends on the regions only. */
  lemma StoreOneKeeps(g: Guest, stores: seq<Stored>)
    requires Mapped(g, stores) && stores != []
    ensures Mapped(g, [stores[0]]) && Mapped(StoreOne(g, stores[0]), stores[1..])
    ensures forall e :: EntryBytes(StoreOne(g, stores[0]), e) == EntryBytes(g, e)
    ensures Install(g, stores) == Install(StoreOne(g, stores[0]), stores[1..])
  {
    hide Poke, FindAccess;
  }

  lemma {:induction false} InstallElsewhere(g: Guest, stores: seq<Stored>, p: u64)
    requires Mapped(g, stores)
    requires forall i | 0 <= i < |stores| :: p !in EntryBytes(g, stores[i].at)
    ensures Install(g, stores).host[p] == g.host[p]
    decreases |stores|
  {
    hide EntryBytes, Install;
    if stores == [] {
      NothingInstalled(g);
    } else {
      var s := stores[0];
      StoreOneKeeps(g, stores);
      PokeElsewhere(g.host, EntryBytes(g, s.at), ToBytes(s.value, s.at.size), p);
      InstallElsewhere(StoreOne(g, s), stores[1..], p);
    }
  }

  lemma NothingInstalled(g: Guest)
    ensures Install(g, []) == g
  {
  }

  lemma {:induction false} InstallKeeps(g: Guest, stores: seq<Stored>)
    requires Mapped(g, stores)
    ensures Install(g, stores).regions == g.regions && Install(g, stores).regs == g.regs
    decreases |stores|
  {
    hide EntryBytes, Install;
    if stores == [] {
      NothingInstalled(g);
    } else {
      StoreOneKeeps(g, stores);
      InstallKeeps(StoreOne(g, stores[0]), stores[1..]);
    }
  }

  lemma MappedBytes(g: Guest, e: Entry)
    requires ValidRegions(g.regions) && |EntryBytes(g, e)| == e.size
    ensures FindAccess(g.regions, e.addr, e.size).Some? && Distinct(EntryBytes(g, e))
  {
    hide Find;
    FoundAccess(g.regions, e.addr, e.size);
    SpanDistinct(FindAccess(g.regions, e.addr, e.size).value.host, e.size);
  }

  /** Each installed entry is read back with its value. */
  lemma {:induction false} InstalledReads(g: Guest, stores: seq<Stored>, i: nat)
    requires ValidRegions(g.regions) && Installable(g, stores) && i < |stores|
    ensures GetEntry(Install(g, stores), stores[i].at) == Some(stores[i].value)
    decreases |stores|
  {
    hide EntryBytes, Install, Flag, GetEntry;
    StoreOneKeeps(g, stores);
    var s := stores[0];
    var g1 := StoreOne(g, s);
    if i > 0 {
      assert stores[i] == stores[1..][i - 1];
      InstalledReads(g1, stores[1..], i - 1);
    } else {
      var bytes := ToBytes(s.value, s.at.size);
      MappedBytes(g, s.at);
      PeekPoke(g.host, EntryBytes(g, s.at), bytes);
      var g' := Install(g1, stores[1..]);
      InstallKeeps(g1, stores[1..]);
      forall p | p in EntryBytes(g, s.at)
        ensures g'.host[p] == g1.host[p]
      {
        InstallElsewhere(g1, stores[1..], p);
      }
      EntryFromRegions(g, g', s.at);
      assert Peek(g'.host, EntryBytes(g', s.at)) == Peek(g1.host, EntryBytes(g, s.at));
      BytesRoundTrip(s.value, s.at.size);
      ReadsValue(g', s.at, s.value);
    }
  }

  lemma EntryFromRegions(g: Guest, g': Guest, e: Entry)
    requires g.regions == g'.regions
    ensures EntryBytes(g, e) == EntryBytes(g', e)
  {
  }

  lemma ReadsValue(g: Guest, e: Entry, value: nat)
    requires FindAccess(g.regions, e.addr, e.size).Some?
    requires FromBytes(Peek(g.host, EntryBytes(g, e))) == value && value % 2 == 1
    ensures GetEntry(g, e) == Some(value)
  {
    hide EntryBytes;
    assert Pow2(0) == 1 && Pow2(1) == 2;
  }

  lemma InstalledPresent(g: Guest, stores: seq<Stored>)
    requires ValidRegions(g.regions) && Installable(g, stores)
    ensures var g' := Install(g, stores);
            && g'.regions == g.regions && g'.regs == g.regs
            && forall i | 0 <= i < |stores| ::
                 Present(g', stores[i].at.addr, stores[i].at.size) == Some(stores[i].value)
  {
    hide GetEntry, Install, Present;
    InstallKeeps(g, stores);
    forall i | 0 <= i < |stores|
      ensures Present(Install(g, stores), stores[i].at.addr, stores[i].at.size) == Some(stores[i].value)
    {
      InstalledReads(g, stores, i);
      EntryIsPresent(Install(g, stores), stores[i].at);
    }
  }

  // ----- 4-level paging ----------------------------------------------------------------

  /** An entry of a 512-entry table. */
  function TableEntry(table: nat, index: nat): (e: Entry)
    ensures e.addr % 8 == 0
  {
    RangeBound(table);
    Entry(BitRange(table, 51, 12) * 0x1000 + index % 0x200 * 8, 8)
  }

  lemma RangeBound(table: nat)
    ensures 0 <= BitRange(table, 51, 12) < 0x100_0000_0000
  {
    Powers();
  }

  /**
   * The entries that lead to a page: values holds, level by level, what to store;
   * each but the last holds the base of the next table.
   */
  function Path(cr3: nat, l: nat, values: seq<nat>): seq<Stored>
    requires |values| <= 4
  {
    var all := [BitRange(l, 47, 39), BitRange(l, 38, 30), BitRange(l, 29, 21), BitRange(l, 20, 12)];
    seq(|values|, i requires 0 <= i < |values| =>
          Stored(TableEntry(if i == 0 then cr3 else values[i - 1], all[i]), values[i]))
  }

  /** A page of 1 GByte, 2 MBytes or 4 KBytes ends the path at the second, third or fourth level. */
  predicate EndsPath(values: seq<nat>) {
    && 2 <= |values| <= 4
    && (forall i | 1 <= i < |values| - 1 :: BitRange(values[i], 7, 7) == 0)
    && (|values| < 4 ==> BitRange(values[|values| - 1], 7, 7) == 1)
  }

  lemma NineBits(l: nat, high: nat, low: nat)
    requires high == low + 8
    ensures BitRange(l, high, low) % 0x200 == BitRange(l, high, low)
  {
    BelowRange(l, high, low);
  }

  /** The frame of a page's entry, and the offset of an address within the page. */
  function InPageOf(levels: nat, entry: nat, l: nat): nat {
    match levels
    case 2 => BitRange(entry, 51, 30) * 0x4000_0000 + l % 0x4000_0000
    case 3 => BitRange(entry, 51, 21) * 0x20_0000 + l % 0x20_0000
    case _ => BitRange(entry, 51, 12) * 0x1000 + l % 0x1000
  }

  /** The manual's walk follows a path whose entries are present. */
  lemma PathIsWalked(g: Guest, cr3: nat, l: nat, values: seq<nat>)
    requires EndsPath(values)
    requires var path := Path(cr3, l, values);
             forall i | 0 <= i < |path| :: Present(g, path[i].at.addr, path[i].at.size) == Some(path[i].value)
    ensures Sdm4Level(g, cr3, l) == Some(InPageOf(|values|, values[|values| - 1], l))
  {
    hide BitRange, Present;
    var path := Path(cr3, l, values);
    NineBits(l, 47, 39);
    NineBits(l, 38, 30);
    NineBits(l, 29, 21);
    NineBits(l, 20, 12);
    Offsets(l);
    assert path[0].value == values[0] && path[1].value == values[1];
    assert |values| > 2 ==> path[2].value == values[2];
    assert |values| > 3 ==> path[3].value == values[3];
  }

  /**
   * After the entries of a path are installed in 4-level mode, the address
   * translates to the last entry's frame plus the offset within its page.
   */
  lemma InstalledPageTranslates(g: Guest, l: u64, values: seq<nat>)
    requires ValidRegions(g.regions) && g.regs.cr3.Some? && EndsPath(values)
    requires Installable(g, Path(g.regs.cr3.value, l, values))
    ensures LinearToPhysical4Level(Install(g, Path(g.regs.cr3.value, l, values)), l).paddr ==
            Some(InPageOf(|values|, values[|values| - 1], l))
  {
    hide LinearToPhysical4Level, Sdm4Level, Install, Path, Present, EntryBytes, InPageOf;
    var cr3 := g.regs.cr3.value;
    var path := Path(cr3, l, values);
    var g' := Install(g, path);
    InstalledPresent(g, path);
    FourLevelAgrees(g', l);
    PathIsWalked(g', cr3, l, values);
  }

  lemma Offsets(l: nat)
    ensures BitRange(l, 29, 0) == l % 0x4000_0000 && BitRange(l, 20, 0) == l % 0x20_0000
    ensures BitRange(l, 21, 0) == l % 0x40_0000 && BitRange(l, 11, 0) == l % 0x1000
  {
    FramePowers();
    LowRange(l, 29);
    LowRange(l, 20);
    LowRange(l, 21);
    LowRange(l, 11);
  }

  // ----- 32-bit paging -----------------------------------------------------------------

  function TableEntry32(table: nat, index: nat): (e: Entry)
    ensures e.addr % 4 == 0
  {
    RangeBound32(table);
    Entry(BitRange(table, 31, 12) * 0x1000 + index % 0x400 * 4, 4)
  }

  lemma RangeBound32(table: nat)
    ensures 0 <= BitRange(table, 31, 12) < 0x10_0000
  {
    Powers();
  }

  lemma TenBits(l: nat)
    ensures BitRange(l, 31, 22) % 0x400 == BitRange(l, 31, 22) && BitRange(l, 21, 12) % 0x400 == BitRange(l, 21, 12)
  {
    Powers();
  }

  function Path32(cr3: nat, l: nat, values: seq<nat>): seq<Stored>
    requires 1 <= |values| <= 2
  {
    [Stored(TableEntry32(cr3, BitRange(l, 31, 22)), values[0])]
    + if |values| == 1 then [] else [Stored(TableEntry32(values[0], BitRange(l, 21, 12)), values[1])]
  }

  /** A 4-MByte page ends the path at its first entry when CR4.PSE is set. */
  predicate EndsPath32(pse: bool, values: seq<nat>) {
    1 <= |values| <= 2 && (|values| == 1 <==> pse && BitRange(values[0], 7, 7) == 1)
  }

  function InPageOf32(values: seq<nat>, l: nat): nat
    requires 1 <= |values| <= 2
  {
    if |values| == 1
    then BitRange(values[0], 20, 13) * 0x1_0000_0000 + BitRange(values[0], 31, 22) * 0x40_0000 + l % 0x40_0000
    else BitRange(values[1], 31, 12) * 0x1000 + l % 0x1000
  }

  lemma PathIsWalked32(g: Guest, cr3: nat, pse: bool, l: nat, values: seq<nat>)
    requires EndsPath32(pse, values)
    requires var path := Path32(cr3, l, values);
             forall i | 0 <= i < |path| :: Present(g, path[i].at.addr, path[i].at.size) == Some(path[i].value)
    ensures Sdm32(g, cr3, pse, l) == Some(InPageOf32(values, l))
  {
    hide BitRange, Present;
    var path := Path32(cr3, l, values);
    TenBits(l);
    Offsets(l);
    assert path[0].value == values[0] && (|values| > 1 ==> path[1].value == values[1]);
  }

  /** The same in 32-bit mode, for 4-KByte pages and, with CR4.PSE, 4-MByte pages at 40-bit addresses. */
  lemma InstalledPageTranslates32(g: Guest, l: u64, values: seq<nat>)
    requires ValidRegions(g.regions) && g.regs.cr3.Some? && g.regs.cr4.Some? && l < 0x1_0000_0000
    requires EndsPath32(Flag(g.regs.cr4.value, 4), values)
    requires Installable(g, Path32(g.regs.cr3.value, l, values))
    ensures LinearToPhysical32(Install(g, Path32(g.regs.cr3.value, l, values)), l).paddr == Some(InPageOf32(values, l))
  {
    hide LinearToPhysical32, Sdm32, Install, Path32, Present, EntryBytes, InPageOf32, Flag;
    var cr3, pse := g.regs.cr3.value, Flag(g.regs.cr4.value, 4);
    var path := Path32(cr3, l, values);
    var g' := Install(g, path);
    InstalledPresent(g, path);
    ThirtyTwoBitAgrees(g', l);
    PathIsWalked32(g', cr3, pse, l, values);
  }
}
