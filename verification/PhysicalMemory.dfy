/** Physical memory accesses: how the region list resolves them, and the bytes they move. */
module PhysicalMemory {
  import opened Bits
  import opened ByteBuffers
  import opened Wrappers
  import opened Regions

  /** Host memory: one byte for each 64-bit host address. */
  type HostMemory = h: seq<byte> | |h| == 0x1_0000_0000_0000_0000
    witness seq(0x1_0000_0000_0000_0000, i => 0)

  // ----- Bytes -------------------------------------------------------------------

  /** The host addresses of n consecutive bytes. */
  function Span(h: u64, n: nat): (ps: seq<u64>)
    ensures |ps| == n
  {
    seq<u64>(n, i requires 0 <= i < n => Wrap(h + i))
  }

  function Peek(host: HostMemory, ps: seq<u64>): (bytes: seq<byte>)
    ensures |bytes| == |ps|
  {
    seq(|ps|, i requires 0 <= i < |ps| => host[ps[i]])
  }

  /** Stores the bytes one after the other. */
  function Poke(host: HostMemory, ps: seq<u64>, bytes: seq<byte>): HostMemory
    requires |ps| == |bytes|
    decreases |ps|
  {
    if ps == [] then host else Poke(host[ps[0] := bytes[0]], ps[1..], bytes[1..])
  }

  predicate Distinct(ps: seq<u64>) {
    forall i, j | 0 <= i < j < |ps| :: ps[i] != ps[j]
  }

  lemma {:induction false} PokeElsewhere(host: HostMemory, ps: seq<u64>, bytes: seq<byte>, p: u64)
    requires |ps| == |bytes| && p !in ps
    ensures Poke(host, ps, bytes)[p] == host[p]
    decreases |ps|
  {
    if ps != [] {
      PokeElsewhere(host[ps[0] := bytes[0]], ps[1..], bytes[1..], p);
    }
  }

  lemma {:induction false} PeekPoke(host: HostMemory, ps: seq<u64>, bytes: seq<byte>)
    requires |ps| == |bytes| && Distinct(ps)
    ensures Peek(Poke(host, ps, bytes), ps) == bytes
    decreases |ps|
  {
    if ps != [] {
      PeekPoke(host[ps[0] := bytes[0]], ps[1..], bytes[1..]);
      PokeElsewhere(host[ps[0] := bytes[0]], ps[1..], bytes[1..], ps[0]);
      var after := Poke(host, ps, bytes);
      assert Peek(after, ps) == [after[ps[0]]] + Peek(after, ps[1..]);
    }
  }

  /** Storing what is there already changes nothing. */
  lemma {:induction false} PokeSame(host: HostMemory, ps: seq<u64>)
    ensures Poke(host, ps, Peek(host, ps)) == host
    decreases |ps|
  {
    if ps != [] {
      assert host[ps[0] := host[ps[0]]] == host;
      assert Peek(host, ps)[1..] == Peek(host, ps[1..]);
      PokeSame(host, ps[1..]);
    }
  }

  lemma {:induction false} PokeAppend(host: HostMemory, ps: seq<u64>, bs: seq<byte>, qs: seq<u64>, cs: seq<byte>)
    requires |ps| == |bs| && |qs| == |cs|
    ensures Poke(Poke(host, ps, bs), qs, cs) == Poke(host, ps + qs, bs + cs)
    decreases |ps|
  {
    if ps == [] {
      assert ps + qs == qs && bs + cs == cs;
    } else {
      PokeAppend(host[ps[0] := bs[0]], ps[1..], bs[1..], qs, cs);
      assert (ps + qs)[1..] == ps[1..] + qs && (bs + cs)[1..] == bs[1..] + cs;
    }
  }

  lemma SpanDistinct(h: u64, n: nat)
    requires n <= 4096
    ensures Distinct(Span(h, n))
  {
    forall i, j | 0 <= i < j < n
      ensures Span(h, n)[i] != Span(h, n)[j]
    {
      NearbyDiffer(h + i, h + j);
    }
  }

  lemma NearbyDiffer(x: int, y: int)
    requires x < y < x + 0x1_0000_0000_0000_0000
    ensures Wrap(x) != Wrap(y)
  {
    ModShift(x, 0);
    ModShift(y, 0);
  }

  lemma SpanAppend(h: u64, m: nat, n: nat)
    ensures Span(h, m + n) == Span(h, m) + Span(Wrap(h + m), n)
  {
    var whole, tail := Span(h, m + n), Span(Wrap(h + m), n);
    forall j | m <= j < m + n
      ensures whole[j] == tail[j - m]
    {
      WrapWrap(h + m, j - m);
    }
  }

  // ----- Resolving an access -----------------------------------------------------

  /** The block of host memory an access copies to or from. */
  datatype Access = Access(host: u64, size: u64)

  /** The test that picks a region: the access starts in or after it and its last byte does not lie beyond it. */
  predicate Picks(r: MemoryRegion, paddr: u64, finalPAddr: u64) {
    paddr >= r.baseAddress && finalPAddr <= r.FinalAddress()
  }

  /**
   * The search of MemRead and MemWrite from the newest region to the oldest. A
   * region that is picked but smaller than the access only shortens the access.
   */
  function Find(regions: seq<MemoryRegion>, paddr: u64, finalPAddr: u64, size: u64): Option<Access> {
    if regions == [] then None
    else
      var r, older := regions[|regions| - 1], regions[..|regions| - 1];
      if !Picks(r, paddr, finalPAddr) then Find(older, paddr, finalPAddr, size)
      else if size <= r.size then Some(Access(r.HostAddress(paddr), size))
      else Find(older, paddr, finalPAddr, size - r.size)
  }

  function FindAccess(regions: seq<MemoryRegion>, paddr: u64, size: u64): Option<Access> {
    Find(regions, paddr, Wrap(paddr + size - 1), size)
  }

  /** The range does not wrap, or is at most a page: then no region that is picked is too small for it. */
  predicate Plain(paddr: u64, size: u64) {
    size > 0 && (paddr + size <= 0x1_0000_0000_0000_0000 || size <= 4096)
  }

  /** The branch that shortens an access is dead for plain accesses to valid regions. */
  lemma PickedIsLargeEnough(r: MemoryRegion, paddr: u64, size: u64)
    requires r.Valid() && Plain(paddr, size) && Picks(r, paddr, Wrap(paddr + size - 1))
    ensures size <= r.size
  {
    assert r.FinalAddress() == r.baseAddress + r.size - 1;
  }

  /** A found access has its full size and keeps the page offset. */
  lemma {:induction false} FoundAccess(regions: seq<MemoryRegion>, paddr: u64, size: u64)
    requires ValidRegions(regions) && Plain(paddr, size)
    ensures var a := FindAccess(regions, paddr, size);
            a.Some? ==> a.value.size == size && a.value.host % 4096 == paddr % 4096
  {
    if regions != [] {
      var r := regions[|regions| - 1];
      FoundAccess(regions[..|regions| - 1], paddr, size);
      if Picks(r, paddr, Wrap(paddr + size - 1)) {
        PickedIsLargeEnough(r, paddr, size);
        HostKeepsOffset(r, paddr);
      }
    }
  }

  lemma HostKeepsOffset(r: MemoryRegion, a: int)
    requires r.Valid()
    ensures r.HostAddress(a) % 4096 == a % 4096
  {
    WrapKeepsPageOffset(r.hostMemory + a - r.baseAddress);
    AlignedSums(r.hostMemory, r.baseAddress);
    AddPages(a, (r.hostMemory - r.baseAddress) / 4096);
  }

  /** No region begins or ends strictly inside the range. */
  ghost predicate Uncut(regions: seq<MemoryRegion>, paddr: u64, size: u64) {
    forall r, a | r in regions && paddr <= a < paddr + size :: r.Contains(a) <==> r.Contains(paddr)
  }

  function Advance(h: Option<u64>, n: int): Option<u64> {
    match h
    case None => None
    case Some(p) => Some(Wrap(p + n))
  }

  /**
   * The access succeeds exactly when its first byte is mapped, and then touches
   * exactly the bytes of the newest-wins map.
   */
  ghost predicate Faithful(regions: seq<MemoryRegion>, paddr: u64, size: u64) {
    && FindAccess(regions, paddr, size) == (match Resolve(regions, paddr)
                                            case None => None
                                            case Some(h) => Some(Access(h, size)))
    && forall a | paddr <= a < paddr + size :: Resolve(regions, a) == Advance(Resolve(regions, paddr), a - paddr)
  }

  lemma {:induction false} UncutAccess(regions: seq<MemoryRegion>, paddr: u64, size: u64)
    requires ValidRegions(regions) && size > 0 && paddr + size <= 0x1_0000_0000_0000_0000
    requires Uncut(regions, paddr, size)
    ensures Faithful(regions, paddr, size)
  {
    if regions != [] {
      var n := |regions| - 1;
      var r, older := regions[n], regions[..n];
      assert regions == older + [r];
      UncutAccess(older, paddr, size);
      assert r.Contains(paddr + size - 1) <==> r.Contains(paddr);
      assert Picks(r, paddr, paddr + size - 1) <==> r.Contains(paddr);
      if r.Contains(paddr) {
        PickedIsLargeEnough(r, paddr, size);
      }
      ResolveLast(older, r, paddr);
      forall a | paddr <= a < paddr + size
        ensures Resolve(regions, a) == Advance(Resolve(regions, paddr), a - paddr)
      {
        ResolveLast(older, r, a);
        WrapWrap(r.hostMemory + paddr - r.baseAddress, a - paddr);
        assert r.Contains(a) <==> r.Contains(paddr);
      }
    }
  }

  lemma ResolveLast(older: seq<MemoryRegion>, r: MemoryRegion, a: int)
    ensures Resolve(older + [r], a) == if r.Contains(a) then Some(r.HostAddress(a)) else Resolve(older, a)
  {
    ResolveAppend(older, [r], a);
    ResolveNewest([r], a, if r.Contains(a) then 0 else -1);
  }

  predicate InPage(paddr: int, size: int) {
    size > 0 && paddr % 4096 + size <= 4096
  }

  lemma AlignedContains(r: MemoryRegion, a: int, b: int)
    requires r.Valid() && a / 4096 == b / 4096
    ensures r.Contains(a) <==> r.Contains(b)
  {
  }

  /** Valid regions are page-aligned, so none cuts an access inside one page. */
  lemma InPageAccess(regions: seq<MemoryRegion>, paddr: u64, size: u64)
    requires ValidRegions(regions) && InPage(paddr, size)
    ensures Faithful(regions, paddr, size)
  {
    forall r, a | r in regions && paddr <= a < paddr + size
      ensures r.Contains(a) <==> r.Contains(paddr)
    {
      AlignedContains(r, a, paddr);
    }
    UncutAccess(regions, paddr, size);
  }

  // ----- Any access ------------------------------------------------------------------

  /** The access succeeds exactly when all its bytes are mapped, and then touches exactly those of the per-byte map. */
  ghost predicate Agrees(regions: seq<MemoryRegion>, paddr: u64, size: u64) {
    match FindAccess(regions, paddr, size)
    case None => exists a | paddr <= a < paddr + size :: Resolve(regions, a) == None
    case Some(access) =>
      && access.size == size
      && forall a | paddr <= a < paddr + size :: Resolve(regions, a) == Some(Wrap(access.host + (a - paddr)))
  }

  predicate Holds(r: MemoryRegion, paddr: u64, size: u64) {
    r.baseAddress <= paddr && paddr + size <= r.baseAddress + r.size
  }

  /** Region k is the newest to hold the whole access; -1 says that none does. */
  ghost predicate IsNewestHolder(regions: seq<MemoryRegion>, paddr: u64, size: u64, k: int) {
    && -1 <= k < |regions|
    && (k >= 0 ==> Holds(regions[k], paddr, size))
    && forall j | k < j < |regions| :: !Holds(regions[j], paddr, size)
  }

  /** The newest region that holds the whole access, or -1. */
  ghost function NewestHolder(regions: seq<MemoryRegion>, paddr: u64, size: u64): (k: int)
    ensures IsNewestHolder(regions, paddr, size, k)
  {
    if regions == [] then -1
    else
      var n := |regions| - 1;
      if Holds(regions[n], paddr, size) then n
      else
        var k := NewestHolder(regions[..n], paddr, size);
        assert forall j | 0 <= j < n :: regions[..n][j] == regions[j];
        k
  }

  /** Region j is the newest to contain the byte. */
  ghost predicate Owns(regions: seq<MemoryRegion>, j: nat, a: int)
    requires j < |regions|
  {
    regions[j].Contains(a) && forall i | j < i < |regions| :: !regions[i].Contains(a)
  }

  lemma {:induction false} HolderIsFound(regions: seq<MemoryRegion>, paddr: u64, size: u64, k: int)
    requires ValidRegions(regions) && size > 0 && paddr + size <= 0x1_0000_0000_0000_0000
    requires IsNewestHolder(regions, paddr, size, k)
    ensures FindAccess(regions, paddr, size) ==
            if k >= 0 then Some(Access(regions[k].HostAddress(paddr), size)) else None
  {
    if regions != [] {
      var n := |regions| - 1;
      var r := regions[n];
      assert Picks(r, paddr, paddr + size - 1) <==> Holds(r, paddr, size);
      if k != n {
        assert forall j | 0 <= j < n :: regions[..n][j] == regions[j];
        HolderIsFound(regions[..n], paddr, size, k);
      }
    }
  }

  /** Every newer region that owns the byte sends it where region k does. */
  ghost predicate SentAlike(regions: seq<MemoryRegion>, k: nat, a: int)
    requires k < |regions|
  {
    forall j | k < j < |regions| && Owns(regions, j, a) :: regions[j].HostAddress(a) == regions[k].HostAddress(a)
  }

  predicate InNoRegion(regions: seq<MemoryRegion>, a: int) {
    forall r | r in regions :: !r.Contains(a)
  }

  lemma SentAlikeIff(regions: seq<MemoryRegion>, k: nat, a: int)
    requires k < |regions| && regions[k].Contains(a)
    ensures SentAlike(regions, k, a) <==> Resolve(regions, a) == Some(regions[k].HostAddress(a))
  {
    var i := NewestContainer(regions, a);
    assert Owns(regions, i, a);
    assert forall j | 0 <= j < |regions| && Owns(regions, j, a) :: j == i;
  }

  lemma InNoRegionIff(regions: seq<MemoryRegion>, a: int)
    ensures InNoRegion(regions, a) <==> Resolve(regions, a) == None
  {
    var i := NewestContainer(regions, a);
    assert i >= 0 ==> regions[i] in regions;
  }

  /**
   * An access agrees with the per-byte map if and only if, where a region holds
   * all of it, every newer region that owns one of its bytes sends that byte to
   * the same host address; and where no region does, some byte is in no region.
   */
  lemma AccessAgreesIff(regions: seq<MemoryRegion>, paddr: u64, size: u64)
    requires ValidRegions(regions) && size > 0 && paddr + size <= 0x1_0000_0000_0000_0000
    ensures var k := NewestHolder(regions, paddr, size);
            Agrees(regions, paddr, size) <==>
            if k >= 0 then forall a | paddr <= a < paddr + size :: SentAlike(regions, k, a)
            else exists a | paddr <= a < paddr + size :: InNoRegion(regions, a)
  {
    hide SentAlike, InNoRegion, Resolve, Find, NewestHolder;
    var k := NewestHolder(regions, paddr, size);
    HolderIsFound(regions, paddr, size, k);
    if k >= 0 {
      forall a | paddr <= a < paddr + size
        ensures Wrap(regions[k].HostAddress(paddr) + (a - paddr)) == regions[k].HostAddress(a)
        ensures SentAlike(regions, k, a) <==> Resolve(regions, a) == Some(regions[k].HostAddress(a))
      {
        WrapWrap(regions[k].hostMemory + paddr - regions[k].baseAddress, a - paddr);
        SentAlikeIff(regions, k, a);
      }
    } else {
      forall a
        ensures InNoRegion(regions, a) <==> Resolve(regions, a) == None
      {
        InNoRegionIff(regions, a);
      }
    }
  }

  /** Accesses inside one page always agree. */
  lemma InPageAgrees(regions: seq<MemoryRegion>, paddr: u64, size: u64)
    requires ValidRegions(regions) && InPage(paddr, size)
    ensures Agrees(regions, paddr, size)
  {
    hide Find, Resolve;
    InPageAccess(regions, paddr, size);
    assert paddr <= paddr < paddr + size;
  }

  /**
   * Departure: across a page boundary the code wants one region to hold the whole
   * access. It fails over two adjoining regions although every byte is mapped, and
   * it bypasses a newer region that covers only the access's last bytes.
   */
  lemma AccessAcrossRegions()
    ensures var low, high := MemoryRegion(0x1000, 0x1000, 0x10000), MemoryRegion(0x2000, 0x1000, 0x30000);
            && Resolve([low, high], 0x1FFF) == Some(0x10FFF) && Resolve([low, high], 0x2000) == Some(0x30000)
            && FindAccess([low, high], 0x1FFF, 2) == None
    ensures var both, high := MemoryRegion(0x1000, 0x2000, 0x10000), MemoryRegion(0x2000, 0x1000, 0x30000);
            && Resolve([both, high], 0x2000) == Some(0x30000)
            && FindAccess([both, high], 0x1FFF, 2) == Some(Access(0x10FFF, 2))
  {
    var low, both := MemoryRegion(0x1000, 0x1000, 0x10000), MemoryRegion(0x1000, 0x2000, 0x10000);
    var high := MemoryRegion(0x2000, 0x1000, 0x30000);
    ResolveNewest([low, high], 0x1FFF, 0);
    ResolveNewest([low, high], 0x2000, 1);
    ResolveNewest([both, high], 0x2000, 1);
    assert [low, high][..1] == [low] && [both, high][..1] == [both];
    assert Find([low], 0x1FFF, 0x2000, 2) == None;
    assert Find([both], 0x1FFF, 0x2000, 2) == Some(Access(0x10FFF, 2));
  }
}
