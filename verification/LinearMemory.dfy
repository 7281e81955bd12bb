/**
 * Linear memory accesses: the loop that splits an access at page boundaries,
 * translates each chunk once and copies it, against a per-byte semantics.
 */
module LinearMemory {
  import opened Bits
  import opened ByteBuffers
  import opened Wrappers
  import opened Regions
  import opened PhysicalMemory
  import opened Paging

  /** The host bytes an access reaches before it fails, in order, and whether it reaches all of them. */
  datatype Targets = Targets(ps: seq<u64>, all: bool) {
    function After(first: seq<u64>): Targets {
      Targets(first + ps, all)
    }
  }

  /** The size of the chunk at an address: up to the end of its page. */
  function ChunkSize(laddr: u64, size: nat): nat {
    if size < 4096 - laddr % 4096 then size else 4096 - laddr % 4096
  }

  /** Where the chunk at an address starts in host memory, if it translates and is mapped. */
  function ChunkTarget(g: Guest, laddr: u64, size: nat): Option<u64>
    requires size < 0x1_0000_0000_0000_0000
  {
    match LinearToPhysical(g, laddr).paddr
    case None => None
    case Some(paddr) => match FindAccess(g.regions, paddr, size)
      case None => None
      case Some(a) => Some(a.host)
  }

  /** The chunk by chunk access: one translation for each page. */
  function LinearTargets(g: Guest, laddr: u64, size: nat): (t: Targets)
    ensures |t.ps| <= size && (t.all ==> |t.ps| == size)
    decreases size
  {
    if size == 0 then Targets([], true)
    else
      var c := ChunkSize(laddr, size);
      match ChunkTarget(g, laddr, c)
      case None => Targets([], false)
      case Some(h) => LinearTargets(g, Wrap(laddr + c), size - c).After(Span(h, c))
  }

  /** The entries those translations walk, the failing one included. */
  function Walked(g: Guest, laddr: u64, size: nat): seq<Entry>
    decreases size
  {
    if size == 0 then []
    else
      var c := ChunkSize(laddr, size);
      LinearToPhysical(g, laddr).entries +
      (if ChunkTarget(g, laddr, c).None? then [] else Walked(g, Wrap(laddr + c), size - c))
  }

  datatype Written = Written(guest: Guest, ok: bool)

  /** Writing chunk by chunk: each chunk is translated in the memory the earlier chunks left. */
  function LinearWrite(g: Guest, laddr: u64, value: seq<byte>): Written
    decreases |value|
  {
    if value == [] then Written(g, true)
    else
      var c := ChunkSize(laddr, |value|);
      match ChunkTarget(g, laddr, c)
      case None => Written(g, false)
      case Some(h) =>
        LinearWrite(g.(host := Poke(g.host, Span(h, c), value[..c])), Wrap(laddr + c), value[c..])
  }

  // ----- Per-byte semantics ---------------------------------------------------------

  /** The host byte behind one linear address. */
  function ByteTarget(g: Guest, laddr: u64): Option<u64> {
    match LinearToPhysical(g, laddr).paddr
    case None => None
    case Some(paddr) => Resolve(g.regions, paddr)
  }

  /** The longest mapped prefix of the range, each byte translated on its own. */
  function ByteTargets(g: Guest, laddr: u64, size: nat): Targets
    decreases size
  {
    if size == 0 then Targets([], true)
    else match ByteTarget(g, laddr)
      case None => Targets([], false)
      case Some(h) => ByteTargets(g, Wrap(laddr + 1), size - 1).After([h])
  }

  /** The i-th byte of a range that starts at laddr; addresses wrap around at 2^64. */
  function RangeByte(g: Guest, laddr: u64, i: int): Option<u64> {
    ByteTarget(g, Wrap(laddr + i))
  }

  lemma {:induction false} ByteTargetsMeaning(g: Guest, laddr: u64, size: nat)
    ensures var t := ByteTargets(g, laddr, size);
            && |t.ps| <= size && (t.all <==> |t.ps| == size)
            && (!t.all ==> RangeByte(g, laddr, |t.ps|) == None)
            && forall i | 0 <= i < |t.ps| :: RangeByte(g, laddr, i) == Some(t.ps[i])
    decreases size
  {
    hide LinearToPhysical, Resolve;
    if size > 0 && ByteTarget(g, laddr).Some? {
      var next, rest := Wrap(laddr + 1), ByteTargets(g, Wrap(laddr + 1), size - 1);
      ByteTargetsMeaning(g, next, size - 1);
      var t := ByteTargets(g, laddr, size);
      WrapWrap(laddr + 1, |rest.ps|);
      assert Wrap(laddr + 0) == laddr;
      forall i | 0 <= i < |t.ps|
        ensures RangeByte(g, laddr, i) == Some(t.ps[i])
      {
        if i > 0 {
          WrapWrap(laddr + 1, i - 1);
          assert t.ps[i] == rest.ps[i - 1];
        }
      }
    }
  }

  /** Within a page, once an address is mapped the addresses after it are, to consecutive host bytes. */
  ghost predicate PageContiguous(g: Guest) {
    forall a: u64, b: u64 | a <= b && SamePage(a, b) && ByteTarget(g, a).Some? ::
      ByteTarget(g, b) == Advance(ByteTarget(g, a), b - a)
  }

  lemma PageContiguousAt(g: Guest, a: u64, b: u64)
    requires PageContiguous(g) && a <= b && SamePage(a, b) && ByteTarget(g, a).Some?
    ensures ByteTarget(g, b) == Advance(ByteTarget(g, a), b - a)
  {
  }

  /** Every mode's translation keeps the page offset, PAE as coded included. */
  lemma TranslationKeepsOffset(g: Guest, laddr: u64)
    ensures LinearToPhysical(g, laddr).paddr.Some? ==> LinearToPhysical(g, laddr).paddr.value % 4096 == laddr % 4096
  {
    hide LinearToPhysical32, LinearToPhysical4Level, LinearToPhysicalPAE, And, Flag;
    if PagingMode(g.regs).PAE? {
      PaeKeepsOffset(g, laddr % 0x1_0000_0000);
      LowHalfPage(laddr, laddr);
    } else {
      hide LinearToPhysical, PagingMode;
      TranslationIsPageUniform(g, laddr, laddr);
    }
  }

  lemma PaeKeepsOffset(g: Guest, laddr: u64)
    requires laddr < 0x1_0000_0000
    ensures var p := LinearToPhysicalPAE(g, laddr).paddr;
            p.Some? ==> p.value % 4096 == laddr % 4096
  {
    hide BuildAddress, GetEntry, Pow2, Shl, Shr, And, Or, Field, TableWalk;
    forall pde
      ensures Uniform(laddr, TableWalk(g, laddr, pde), laddr, TableWalk(g, laddr, pde))
    {
      TableUniform(g, laddr, laddr, 0, pde);
    }
  }

  /** A chunk is mapped exactly when its first byte is, and starts at that byte. */
  lemma ChunkIsFirstByte(g: Guest, laddr: u64, size: nat)
    requires ValidRegions(g.regions) && InPage(laddr, size)
    ensures ChunkTarget(g, laddr, size) == ByteTarget(g, laddr)
  {
    hide LinearToPhysical, FindAccess, Resolve;
    TranslationKeepsOffset(g, laddr);
    var paddr := LinearToPhysical(g, laddr).paddr;
    if paddr.Some? {
      InPageAccess(g.regions, paddr.value, size);
    }
  }

  /** Valid regions and a mode other than PAE make every page contiguous. */
  lemma ContiguousOutsidePae(g: Guest)
    requires ValidRegions(g.regions) && !PagingMode(g.regs).PAE?
    ensures PageContiguous(g)
  {
    hide LinearToPhysical, Resolve, FindAccess, PagingMode;
    forall a: u64, b: u64 | a <= b && SamePage(a, b) && ByteTarget(g, a).Some?
      ensures ByteTarget(g, b) == Advance(ByteTarget(g, a), b - a)
    {
      TranslationIsPageUniform(g, a, b);
      var p, q := LinearToPhysical(g, a).paddr.value, LinearToPhysical(g, b).paddr.value;
      assert q == p + (b - a);
      InPageAccess(g.regions, p, b - a + 1);
      assert Resolve(g.regions, q) == Advance(Resolve(g.regions, p), q - p);
    }
  }

  /** Per byte, a mapped stretch of one page is consecutive host bytes followed by the rest. */
  lemma {:induction false} ByteTargetsOfChunk(g: Guest, laddr: u64, c: nat, size: nat, h: u64)
    requires c <= size && laddr % 4096 + c <= 4096 && PageContiguous(g)
    requires c > 0 ==> ByteTarget(g, laddr) == Some(h)
    ensures ByteTargets(g, laddr, size) == ByteTargets(g, Wrap(laddr + c), size - c).After(Span(h, c))
    decreases c
  {
    hide ByteTarget, ByteTargets, PageContiguous, Span, Wrap, SamePage;
    if c == 0 {
      SpanNone(laddr, h);
    } else {
      var next, h' := Wrap(laddr + 1), Wrap(h + 1);
      NextInPage(laddr, c);
      if c > 1 {
        PageContiguousAt(g, laddr, next);
      }
      WrapWrap(laddr + 1, c - 1);
      SpanHead(h, c);
      ByteUnfold(g, laddr, size);
      ByteTargetsOfChunk(g, next, c - 1, size - 1, h');
      AfterAfter(ByteTargets(g, Wrap(laddr + c), size - c), Span(h', c - 1), [h]);
    }
  }

  lemma AfterAfter(t: Targets, ps: seq<u64>, qs: seq<u64>)
    ensures t.After(ps).After(qs) == t.After(qs + ps)
  {
  }

  lemma SpanNone(laddr: u64, h: u64)
    ensures Wrap(laddr + 0) == laddr && Span(h, 0) == []
    ensures forall t: Targets :: t.After(Span(h, 0)) == t
  {
    assert forall t: Targets :: [] + t.ps == t.ps;
  }

  lemma ByteUnfold(g: Guest, laddr: u64, size: nat)
    requires size > 0 && ByteTarget(g, laddr).Some?
    ensures ByteTargets(g, laddr, size) ==
            ByteTargets(g, Wrap(laddr + 1), size - 1).After([ByteTarget(g, laddr).value])
  {
  }

  lemma SpanHead(h: u64, n: nat)
    requires n > 0
    ensures Span(h, n) == [h] + Span(Wrap(h + 1), n - 1)
  {
    SpanAppend(h, 1, n - 1);
    assert Span(h, 1)[0] == Wrap(h + 0) == h;
  }

  lemma NextInPage(laddr: u64, c: nat)
    requires c > 0 && laddr % 4096 + c <= 4096
    ensures Wrap(laddr + 1) % 4096 + (c - 1) <= 4096
    ensures c > 1 ==> Wrap(laddr + 1) == laddr + 1 && SamePage(laddr, laddr + 1)
  {
    WrapKeepsPageOffset(laddr + 1);
  }

  lemma {:induction false} ContiguousMeansPerByte(g: Guest, laddr: u64, size: nat)
    requires ValidRegions(g.regions) && PageContiguous(g)
    ensures LinearTargets(g, laddr, size) == ByteTargets(g, laddr, size)
    decreases size
  {
    hide ByteTarget, ChunkTarget, PageContiguous;
    if size > 0 {
      var c := ChunkSize(laddr, size);
      ChunkIsFirstByte(g, laddr, c);
      if ChunkTarget(g, laddr, c).Some? {
        ByteTargetsOfChunk(g, laddr, c, size, ChunkTarget(g, laddr, c).value);
        ContiguousMeansPerByte(g, Wrap(laddr + c), size - c);
      }
    }
  }

  lemma PerByteMeansContiguous(g: Guest, a: u64, b: u64)
    requires ValidRegions(g.regions) && a <= b && SamePage(a, b) && ByteTarget(g, a).Some?
    requires LinearTargets(g, a, b - a + 1) == ByteTargets(g, a, b - a + 1)
    ensures ByteTarget(g, b) == Advance(ByteTarget(g, a), b - a)
  {
    hide ByteTarget, ChunkTarget;
    var n := b - a + 1;
    ChunkIsFirstByte(g, a, n);
    var h := ByteTarget(g, a).value;
    assert ChunkSize(a, n) == n;
    assert LinearTargets(g, Wrap(a + n), 0) == Targets([], true);
    assert LinearTargets(g, a, n) == Targets(Span(h, n) + [], true);
    ByteTargetsMeaning(g, a, n);
    assert RangeByte(g, a, b - a) == Some(Span(h, n)[b - a]);
  }

  lemma NotContiguousDiffers(g: Guest)
    requires ValidRegions(g.regions) && !PageContiguous(g)
    ensures exists laddr: u64, size: nat :: LinearTargets(g, laddr, size) != ByteTargets(g, laddr, size)
  {
    hide LinearTargets, ByteTargets, ByteTarget;
    var a: u64, b: u64 :| a <= b && SamePage(a, b) && ByteTarget(g, a).Some? &&
                          ByteTarget(g, b) != Advance(ByteTarget(g, a), b - a);
    var n: nat := b - a + 1;
    if LinearTargets(g, a, n) == ByteTargets(g, a, n) {
      PerByteMeansContiguous(g, a, b);
    }
    assert LinearTargets(g, a, n) != ByteTargets(g, a, n);
  }

  /**
   * The chunked access reaches, for every address and size, exactly the bytes of
   * the per-byte semantics, up to the first unmapped one, if and only if the
   * guest's pages are contiguous.
   */
  lemma ChunkedIsPerByteIff(g: Guest)
    requires ValidRegions(g.regions)
    ensures (forall laddr: u64, size: nat :: LinearTargets(g, laddr, size) == ByteTargets(g, laddr, size))
            <==> PageContiguous(g)
  {
    hide LinearTargets, ByteTargets, ByteTarget;
    if PageContiguous(g) {
      hide PageContiguous;
      forall laddr: u64, size: nat
        ensures LinearTargets(g, laddr, size) == ByteTargets(g, laddr, size)
      {
        ContiguousMeansPerByte(g, laddr, size);
      }
    } else {
      NotContiguousDiffers(g);
    }
  }

  /** In the unpaged, 32-bit and 4-level modes a linear access is per-byte for every address and size. */
  lemma AccessIsPerByte(g: Guest, laddr: u64, size: nat)
    requires ValidRegions(g.regions) && !PagingMode(g.regs).PAE?
    ensures var t := LinearTargets(g, laddr, size);
            && (t.all <==> forall i | 0 <= i < size :: RangeByte(g, laddr, i).Some?)
            && (!t.all ==> RangeByte(g, laddr, |t.ps|) == None)
            && forall i | 0 <= i < |t.ps| :: RangeByte(g, laddr, i) == Some(t.ps[i])
  {
    hide RangeByte, LinearTargets, ByteTargets, PageContiguous, PagingMode;
    ContiguousOutsidePae(g);
    ContiguousMeansPerByte(g, laddr, size);
    ByteTargetsMeaning(g, laddr, size);
  }

  // ----- Writing, and reading back ----------------------------------------------------

  /** None of the bytes belongs to an entry on the list. */
  ghost predicate DisjointFrom(g: Guest, ps: seq<u64>, entries: seq<Entry>) {
    forall e, p | e in entries && p in EntryBytes(g, e) :: p !in ps
  }

  lemma DisjointSub(g: Guest, ps: seq<u64>, entries: seq<Entry>, someps: seq<u64>, some: seq<Entry>)
    requires DisjointFrom(g, ps, entries)
    requires forall p | p in someps :: p in ps
    requires forall e | e in some :: e in entries
    ensures DisjointFrom(g, someps, some)
  {
  }

  lemma AgreeOnParts(g: Guest, host: HostMemory, first: seq<Entry>, rest: seq<Entry>)
    ensures AgreeOn(g, host, first + rest) <==> AgreeOn(g, host, first) && AgreeOn(g, host, rest)
  {
    assert forall e :: e in first + rest <==> e in first || e in rest;
  }

  lemma DisjointAgrees(g: Guest, ps: seq<u64>, bytes: seq<byte>, entries: seq<Entry>)
    requires |ps| == |bytes| && DisjointFrom(g, ps, entries)
    ensures AgreeOn(g, Poke(g.host, ps, bytes), entries)
  {
    hide EntryBytes;
    forall e, p | e in entries && p in EntryBytes(g, e)
      ensures Poke(g.host, ps, bytes)[p] == g.host[p]
    {
      PokeElsewhere(g.host, ps, bytes, p);
    }
  }

  lemma ChunkFrame(g: Guest, host: HostMemory, laddr: u64, size: nat)
    requires size < 0x1_0000_0000_0000_0000
    requires AgreeOn(g, host, LinearToPhysical(g, laddr).entries)
    ensures LinearToPhysical(g.(host := host), laddr) == LinearToPhysical(g, laddr)
    ensures ChunkTarget(g.(host := host), laddr, size) == ChunkTarget(g, laddr, size)
  {
    hide LinearToPhysical, FindAccess, AgreeOn;
    TranslationFrame(g, host, laddr);
  }

  /** Memory that agrees on the walked entries sends an access to the same bytes. */
  lemma {:induction false} TargetsFrame(g: Guest, host: HostMemory, laddr: u64, size: nat)
    requires AgreeOn(g, host, Walked(g, laddr, size))
    ensures LinearTargets(g.(host := host), laddr, size) == LinearTargets(g, laddr, size)
    ensures Walked(g.(host := host), laddr, size) == Walked(g, laddr, size)
    decreases size
  {
    hide LinearTargets, Walked, LinearToPhysical, ChunkTarget, AgreeOn, Span, Wrap;
    if size == 0 {
      NothingUnfold(g, laddr);
      NothingUnfold(g.(host := host), laddr);
    } else {
      var g', c := g.(host := host), ChunkSize(laddr, size);
      var first, next := LinearToPhysical(g, laddr).entries, Wrap(laddr + c);
      TargetsUnfold(g, laddr, size);
      TargetsUnfold(g', laddr, size);
      AgreeOnParts(g, host, first, if ChunkTarget(g, laddr, c).None? then [] else Walked(g, next, size - c));
      ChunkFrame(g, host, laddr, c);
      if ChunkTarget(g, laddr, c).Some? {
        TargetsFrame(g, host, next, size - c);
      }
    }
  }

  lemma NothingUnfold(g: Guest, laddr: u64)
    ensures LinearTargets(g, laddr, 0) == Targets([], true) && Walked(g, laddr, 0) == []
    ensures LinearWrite(g, laddr, []) == Written(g, true)
    ensures Poke(g.host, [], []) == g.host
  {
  }

  lemma TargetsUnfold(g: Guest, laddr: u64, size: nat)
    requires size > 0
    ensures var c := ChunkSize(laddr, size);
            var next, entries := Wrap(laddr + c), LinearToPhysical(g, laddr).entries;
            match ChunkTarget(g, laddr, c)
            case None => LinearTargets(g, laddr, size) == Targets([], false) && Walked(g, laddr, size) == entries + []
            case Some(h) =>
              && LinearTargets(g, laddr, size) == LinearTargets(g, next, size - c).After(Span(h, c))
              && Walked(g, laddr, size) == entries + Walked(g, next, size - c)
  {
  }

  /**
   * When the bytes a write reaches are disjoint from every entry it walks, it
   * stores the matching prefix of the value in exactly those bytes: all of it
   * when it succeeds, and on failure that of the page chunks before the failing
   * one.
   */
  lemma {:induction false} WriteStoresPrefix(g: Guest, laddr: u64, value: seq<byte>)
    requires DisjointFrom(g, LinearTargets(g, laddr, |value|).ps, Walked(g, laddr, |value|))
    ensures var t := LinearTargets(g, laddr, |value|);
            LinearWrite(g, laddr, value) == Written(g.(host := Poke(g.host, t.ps, value[..|t.ps|])), t.all)
    decreases |value|
  {
    hide LinearTargets, LinearWrite, Walked, LinearToPhysical, ChunkTarget, DisjointFrom, Poke, Span, Wrap;
    if value == [] {
      NothingUnfold(g, laddr);
      assert value[..0] == [];
    } else {
      var c := ChunkSize(laddr, |value|);
      var next, rest := Wrap(laddr + c), value[c..];
      TargetsUnfold(g, laddr, |value|);
      WriteUnfold(g, laddr, value);
      if ChunkTarget(g, laddr, c).None? {
        NothingUnfold(g, laddr);
        assert value[..0] == [];
      } else {
        WriteStep(g, laddr, value);
        var ps, bytes := Span(ChunkTarget(g, laddr, c).value, c), value[..c];
        var t := LinearTargets(g, next, |rest|);
        WriteStoresPrefix(g.(host := Poke(g.host, ps, bytes)), next, rest);
        PokeAppend(g.host, ps, bytes, t.ps, rest[..|t.ps|]);
        PrefixParts(value, c, |t.ps|);
      }
    }
  }

  lemma WriteUnfold(g: Guest, laddr: u64, value: seq<byte>)
    requires value != []
    ensures var c := ChunkSize(laddr, |value|);
            match ChunkTarget(g, laddr, c)
            case None => LinearWrite(g, laddr, value) == Written(g, false)
            case Some(h) =>
              LinearWrite(g, laddr, value) ==
              LinearWrite(g.(host := Poke(g.host, Span(h, c), value[..c])), Wrap(laddr + c), value[c..])
  {
  }

  lemma PrefixParts(value: seq<byte>, c: nat, n: nat)
    requires c + n <= |value|
    ensures value[..c] + value[c..][..n] == value[..c + n]
  {
  }

  /** The first chunk of a disjoint write leaves the rest of it as it was, and disjoint. */
  lemma WriteStep(g: Guest, laddr: u64, value: seq<byte>)
    requires value != [] && ChunkTarget(g, laddr, ChunkSize(laddr, |value|)).Some?
    requires DisjointFrom(g, LinearTargets(g, laddr, |value|).ps, Walked(g, laddr, |value|))
    ensures var c := ChunkSize(laddr, |value|);
            var g' := g.(host := Poke(g.host, Span(ChunkTarget(g, laddr, c).value, c), value[..c]));
            var next, size := Wrap(laddr + c), |value| - c;
            && LinearTargets(g', next, size) == LinearTargets(g, next, size)
            && DisjointFrom(g', LinearTargets(g', next, size).ps, Walked(g', next, size))
  {
    hide LinearToPhysical, ChunkTarget;
    var c := ChunkSize(laddr, |value|);
    var next, size := Wrap(laddr + c), |value| - c;
    var first := Span(ChunkTarget(g, laddr, c).value, c);
    var ps, entries := LinearTargets(g, next, size).ps, Walked(g, next, size);
    var t := LinearTargets(g, laddr, |value|);
    assert t.ps == first + ps;
    assert Walked(g, laddr, |value|) == LinearToPhysical(g, laddr).entries + entries;
    DisjointSub(g, t.ps, Walked(g, laddr, |value|), first, entries);
    DisjointSub(g, t.ps, Walked(g, laddr, |value|), ps, entries);
    DisjointAgrees(g, first, value[..c], entries);
    TargetsFrame(g, Poke(g.host, first, value[..c]), next, size);
    var g' := g.(host := Poke(g.host, first, value[..c]));
    assert forall e :: EntryBytes(g', e) == EntryBytes(g, e);
  }

  /** The bytes a read returns before it succeeds or fails. */
  function LinearRead(g: Guest, laddr: u64, size: nat): seq<byte> {
    Peek(g.host, LinearTargets(g, laddr, size).ps)
  }

  /**
   * Round trip through paging: after a successful write whose target bytes are
   * distinct and disjoint from the entries walked, a read of the same range
   * succeeds and returns the value, in every mode and for every length.
   */
  lemma WriteThenRead(g: Guest, laddr: u64, value: seq<byte>)
    requires DisjointFrom(g, LinearTargets(g, laddr, |value|).ps, Walked(g, laddr, |value|))
    requires Distinct(LinearTargets(g, laddr, |value|).ps)
    requires LinearWrite(g, laddr, value).ok
    ensures var g' := LinearWrite(g, laddr, value).guest;
            LinearTargets(g', laddr, |value|).all && LinearRead(g', laddr, |value|) == value
  {
    hide LinearTargets, LinearWrite, Walked, EntryBytes;
    var t := LinearTargets(g, laddr, |value|);
    WriteStoresPrefix(g, laddr, value);
    assert value[..|t.ps|] == value;
    DisjointAgrees(g, t.ps, value, Walked(g, laddr, |value|));
    TargetsFrame(g, Poke(g.host, t.ps, value), laddr, |value|);
    PeekPoke(g.host, t.ps, value);
  }

  /** A host byte a disjoint write does not reach keeps its contents, whether it succeeds or fails. */
  lemma WriteLeavesOthers(g: Guest, laddr: u64, value: seq<byte>, p: u64)
    requires DisjointFrom(g, LinearTargets(g, laddr, |value|).ps, Walked(g, laddr, |value|))
    requires p !in LinearTargets(g, laddr, |value|).ps
    ensures LinearWrite(g, laddr, value).guest.host[p] == g.host[p]
  {
    hide LinearTargets, LinearWrite, Walked, EntryBytes;
    var t := LinearTargets(g, laddr, |value|);
    WriteStoresPrefix(g, laddr, value);
    PokeElsewhere(g.host, t.ps, value[..|t.ps|], p);
  }
}
