/**
 * The guest memory regions of a virtual machine: a list in which later entries
 * take precedence over earlier, overlapping ones. Map appends to the list and
 * unmap subtracts a range from every entry.
 */
module Regions {
  import opened Bits
  import opened Wrappers

  datatype MemoryRegion = MemoryRegion(baseAddress: u64, size: u64, hostMemory: u64) {
    /** The inclusive last address, with the wraparound of the 64-bit arithmetic that computes it. */
    function FinalAddress(): u64 {
      Wrap(baseAddress + size - 1)
    }

    /** The region is a non-empty run of whole pages that does not wrap around. */
    predicate Valid() {
      && size > 0
      && baseAddress % 4096 == 0 && size % 4096 == 0 && hostMemory % 4096 == 0
      && baseAddress + size <= 0x1_0000_0000_0000_0000
    }

    predicate Contains(a: int) {
      baseAddress <= a < baseAddress + size
    }

    /** The host address that backs guest address a. */
    function HostAddress(a: int): u64 {
      Wrap(hostMemory + a - baseAddress)
    }
  }

  predicate ValidRegions(regions: seq<MemoryRegion>) {
    forall i | 0 <= i < |regions| :: regions[i].Valid()
  }

  /** The newest-wins map from guest physical to host addresses, one byte at a time. */
  function Resolve(regions: seq<MemoryRegion>, a: int): Option<u64> {
    if regions == [] then None
    else match Resolve(regions[1..], a)
      case Some(h) => Some(h)
      case None => if regions[0].Contains(a) then Some(regions[0].HostAddress(a)) else None
  }

  lemma {:induction false} ResolveAppend(older: seq<MemoryRegion>, newer: seq<MemoryRegion>, a: int)
    ensures Resolve(older + newer, a) == if Resolve(newer, a).Some? then Resolve(newer, a) else Resolve(older, a)
  {
    if older == [] {
      assert older + newer == newer;
    } else {
      ResolveAppend(older[1..], newer, a);
      assert (older + newer)[1..] == older[1..] + newer;
    }
  }

  // ----- Unmapping: the effect of one pass over one region --------------------

  /** What the loop does to a region. */
  datatype Overlap = Covered | CoversEnd | CoversStart | Inside

  /** The case of the loop body a region falls into, when [base, finalAddress] is unmapped. */
  function Classify(r: MemoryRegion, base: u64, finalAddress: u64): Overlap {
    if base <= r.baseAddress && finalAddress >= r.FinalAddress() then Covered
    else if base > r.baseAddress && finalAddress >= r.FinalAddress() then CoversEnd
    else if base <= r.baseAddress && finalAddress < r.FinalAddress() then CoversStart
    else Inside
  }

  /** Cases 2 and 4 cut the region's end off. */
  function CutEnd(r: MemoryRegion, base: u64): MemoryRegion
    requires base >= r.baseAddress
  {
    r.(size := base - r.baseAddress)
  }

  /** Case 3 cuts the region's start off. */
  function CutStart(r: MemoryRegion, finalAddress: u64): MemoryRegion
    requires finalAddress < r.FinalAddress()
  {
    var delta := Wrap(finalAddress + 1 - r.baseAddress);
    MemoryRegion(finalAddress + 1, r.FinalAddress() - finalAddress, Wrap(r.hostMemory + delta))
  }

  /** The region case 4 inserts for the part after the unmapped range. */
  function SecondPart(r: MemoryRegion, base: u64, size: u64): MemoryRegion
    requires base >= r.baseAddress && Wrap(base + size - 1) < r.FinalAddress()
  {
    var finalAddress := Wrap(base + size - 1);
    MemoryRegion(finalAddress + 1, r.FinalAddress() - finalAddress,
                 Wrap(r.hostMemory + (base - r.baseAddress) + size))
  }

  /** The entries that replace region r, in list order. */
  function Pieces(r: MemoryRegion, base: u64, size: u64): seq<MemoryRegion> {
    var finalAddress := Wrap(base + size - 1);
    match Classify(r, base, finalAddress)
    case Covered => []
    case CoversEnd => [CutEnd(r, base)]
    case CoversStart => [CutStart(r, finalAddress)]
    case Inside => [SecondPart(r, base, size), CutEnd(r, base)]
  }

  function SubtractRange(regions: seq<MemoryRegion>, base: u64, size: u64): seq<MemoryRegion> {
    if regions == [] then []
    else Pieces(regions[0], base, size) + SubtractRange(regions[1..], base, size)
  }

  /** The range overlaps the region or adjoins it. */
  predicate Touches(r: MemoryRegion, base: u64, size: u64) {
    base <= r.baseAddress + r.size && r.baseAddress <= base + size
  }

  /**
   * The addresses the region claims after the pass: its own outside the range
   * and, when the range lies apart from it, those in the gap between the two.
   */
  predicate Claims(r: MemoryRegion, base: u64, size: u64, a: int) {
    if a < base then r.baseAddress <= a && (a < r.baseAddress + r.size || r.baseAddress + r.size <= base)
    else base + size <= a < r.baseAddress + r.size
  }

  /** The pieces without the wraparound: the part before the range and the part from its end on. */
  function PlainPieces(r: MemoryRegion, base: u64, end: nat): seq<MemoryRegion>
    requires r.Valid() && end > 0
  {
    var regionEnd := r.baseAddress + r.size;
    var before := if base > r.baseAddress then [r.(size := base - r.baseAddress)] else [];
    var after := if end < regionEnd
                 then [MemoryRegion(end, regionEnd - end, r.HostAddress(end))]
                 else [];
    after + before
  }

  lemma PiecesArePlain(r: MemoryRegion, base: u64, size: u64)
    requires r.Valid() && size > 0 && base + size <= 0x1_0000_0000_0000_0000
    ensures Pieces(r, base, size) == PlainPieces(r, base, base + size)
  {
    assert r.FinalAddress() == r.baseAddress + r.size - 1 && Wrap(base + size - 1) == base + size - 1;
    WrapWrap(base + size - r.baseAddress, r.hostMemory);
  }

  /** Every piece keeps the region's guest-to-host displacement. */
  lemma PiecesHost(r: MemoryRegion, base: u64, size: u64, a: int)
    requires r.Valid() && size > 0 && base + size <= 0x1_0000_0000_0000_0000
    ensures forall p | p in Pieces(r, base, size) :: p.HostAddress(a) == r.HostAddress(a)
  {
    PiecesArePlain(r, base, size);
    WrapWrap(r.hostMemory + (base + size) - r.baseAddress, a - (base + size));
  }

  lemma PiecesContain(r: MemoryRegion, base: u64, size: u64, a: int)
    requires r.Valid() && size > 0 && base + size <= 0x1_0000_0000_0000_0000
    ensures Claims(r, base, size, a) <==> exists p | p in Pieces(r, base, size) :: p.Contains(a)
  {
    PiecesArePlain(r, base, size);
    var ps := PlainPieces(r, base, base + size);
    assert forall p | p in ps :: exists i | 0 <= i < |ps| :: ps[i] == p;
    assert |ps| > 0 ==> ps[0] in ps;
    assert |ps| > 1 ==> ps[1] in ps;
  }

  lemma {:induction false} ResolveUniform(regions: seq<MemoryRegion>, a: int, h: u64)
    requires forall p | p in regions :: p.HostAddress(a) == h
    ensures Resolve(regions, a) == if exists p | p in regions :: p.Contains(a) then Some(h) else None
  {
    if regions != [] {
      ResolveUniform(regions[1..], a, h);
      assert regions[0] in regions;
    }
  }

  lemma PiecesClaim(r: MemoryRegion, base: u64, size: u64, a: int)
    requires r.Valid() && size > 0 && base + size <= 0x1_0000_0000_0000_0000
    ensures Resolve(Pieces(r, base, size), a) ==
            if Claims(r, base, size, a) then Some(r.HostAddress(a)) else None
  {
    PiecesHost(r, base, size, a);
    PiecesContain(r, base, size, a);
    ResolveUniform(Pieces(r, base, size), a, r.HostAddress(a));
  }

  // ----- Unmapping: the whole list --------------------------------------------

  predicate InRange(base: u64, size: u64, a: int) {
    base <= a < base + size
  }

  /** Address a lies strictly between the region and an unmapped range that does not touch it. */
  predicate InGap(r: MemoryRegion, base: u64, size: u64, a: int) {
    || r.baseAddress + r.size <= a < base
    || base + size <= a < r.baseAddress
  }

  lemma ClaimsAreOwnOrGap(r: MemoryRegion, base: u64, size: u64, a: int)
    requires r.Valid() && size > 0
    ensures Claims(r, base, size, a) <==> (r.Contains(a) && !InRange(base, size, a)) || InGap(r, base, size, a)
    ensures (exists x :: InGap(r, base, size, x)) <==> !Touches(r, base, size)
  {
    if !Touches(r, base, size) {
      assert InGap(r, base, size, if r.baseAddress < base then base - 1 else base + size);
    }
  }

  /** What unmapping promises for address a. */
  function ResolveOutside(regions: seq<MemoryRegion>, base: u64, size: u64, a: int): Option<u64> {
    if InRange(base, size, a) then None else Resolve(regions, a)
  }

  /** Region i is the newest to claim address a, and it does so only because the range lies apart from it. */
  ghost predicate GapClaim(regions: seq<MemoryRegion>, base: u64, size: u64, i: nat, a: int)
    requires i < |regions|
  {
    && InGap(regions[i], base, size, a)
    && forall j | i < j < |regions| :: !Claims(regions[j], base, size, a)
  }

  /** Every address a gap claims resolved to that same host address before the call. */
  ghost predicate GapsHarmless(regions: seq<MemoryRegion>, base: u64, size: u64) {
    forall i: nat, a | i < |regions| && GapClaim(regions, base, size, i, a) ::
      Resolve(regions, a) == Some(regions[i].HostAddress(a))
  }

  /** Region i is the newest to claim address a after the pass; -1 says that none does. */
  ghost predicate IsNewestClaimant(regions: seq<MemoryRegion>, base: u64, size: u64, a: int, i: int) {
    && -1 <= i < |regions|
    && (i >= 0 ==> Claims(regions[i], base, size, a))
    && forall j | i < j < |regions| :: !Claims(regions[j], base, size, a)
  }

  /** The newest claimant decides where an address resolves after the pass. */
  lemma {:induction false} SubtractResolves(regions: seq<MemoryRegion>, base: u64, size: u64, a: int, i: int)
    requires ValidRegions(regions) && size > 0 && base + size <= 0x1_0000_0000_0000_0000
    requires IsNewestClaimant(regions, base, size, a, i)
    ensures Resolve(SubtractRange(regions, base, size), a) ==
            if i >= 0 then Some(regions[i].HostAddress(a)) else None
  {
    if regions != [] {
      SubtractResolves(regions[1..], base, size, a, if i > 0 then i - 1 else -1);
      PiecesClaim(regions[0], base, size, a);
      ResolveAppend(Pieces(regions[0], base, size), SubtractRange(regions[1..], base, size), a);
    }
  }

  /** The newest region that contains an address decides where it resolves. */
  lemma {:induction false} ResolveNewest(regions: seq<MemoryRegion>, a: int, i: int)
    requires -1 <= i < |regions| && (i >= 0 ==> regions[i].Contains(a))
    requires forall j | i < j < |regions| :: !regions[j].Contains(a)
    ensures Resolve(regions, a) == if i >= 0 then Some(regions[i].HostAddress(a)) else None
  {
    if regions != [] {
      ResolveNewest(regions[1..], a, if i > 0 then i - 1 else -1);
    }
  }

  lemma NewestClaimant(regions: seq<MemoryRegion>, base: u64, size: u64, a: int) returns (i: int)
    ensures IsNewestClaimant(regions, base, size, a, i)
  {
    i := |regions| - 1;
    while i >= 0 && !Claims(regions[i], base, size, a)
      invariant -1 <= i < |regions|
      invariant forall j | i < j < |regions| :: !Claims(regions[j], base, size, a)
    {
      i := i - 1;
    }
  }

  lemma NewestContainer(regions: seq<MemoryRegion>, a: int) returns (i: int)
    ensures -1 <= i < |regions| && (i >= 0 ==> regions[i].Contains(a))
    ensures forall j | i < j < |regions| :: !regions[j].Contains(a)
    ensures Resolve(regions, a) == if i >= 0 then Some(regions[i].HostAddress(a)) else None
  {
    i := |regions| - 1;
    while i >= 0 && !regions[i].Contains(a)
      invariant -1 <= i < |regions|
      invariant forall j | i < j < |regions| :: !regions[j].Contains(a)
    {
      i := i - 1;
    }
    ResolveNewest(regions, a, i);
  }

  /** At one address: unmapping is right unless a gap claim moves the address elsewhere. */
  lemma SubtractAt(regions: seq<MemoryRegion>, base: u64, size: u64, a: int)
    requires ValidRegions(regions) && size > 0 && base + size <= 0x1_0000_0000_0000_0000
    ensures Resolve(SubtractRange(regions, base, size), a) == ResolveOutside(regions, base, size, a) <==>
            forall i: nat | i < |regions| && GapClaim(regions, base, size, i, a) ::
              Resolve(regions, a) == Some(regions[i].HostAddress(a))
  {
    forall i | 0 <= i < |regions|
      ensures Claims(regions[i], base, size, a) <==>
              (regions[i].Contains(a) && !InRange(base, size, a)) || InGap(regions[i], base, size, a)
    {
      ClaimsAreOwnOrGap(regions[i], base, size, a);
    }
    var i := NewestClaimant(regions, base, size, a);
    SubtractResolves(regions, base, size, a, i);
    if i >= 0 && !InGap(regions[i], base, size, a) {
      ResolveNewest(regions, a, i);
      assert forall k: nat | k < |regions| :: !GapClaim(regions, base, size, k, a);
    } else if i >= 0 {
      assert GapClaim(regions, base, size, i, a);
      assert forall k: nat | k < |regions| && GapClaim(regions, base, size, k, a) :: k == i;
    } else if !InRange(base, size, a) {
      ResolveNewest(regions, a, -1);
    }
  }

  /**
   * Unmapping is pointwise subtraction on every address, newest-wins order
   * included, exactly when the gaps of the regions that lie apart from the range
   * are harmless.
   */
  lemma SubtractIsPointwise(regions: seq<MemoryRegion>, base: u64, size: u64)
    requires ValidRegions(regions) && size > 0 && base + size <= 0x1_0000_0000_0000_0000
    ensures (forall a :: Resolve(SubtractRange(regions, base, size), a) == ResolveOutside(regions, base, size, a))
            <==> GapsHarmless(regions, base, size)
  {
    forall a {
      SubtractAt(regions, base, size, a);
    }
  }

  /** In particular it is when the range overlaps or adjoins every region. */
  lemma SubtractTouching(regions: seq<MemoryRegion>, base: u64, size: u64)
    requires ValidRegions(regions) && size > 0 && base + size <= 0x1_0000_0000_0000_0000
    requires forall r | r in regions :: Touches(r, base, size)
    ensures forall a :: Resolve(SubtractRange(regions, base, size), a) == ResolveOutside(regions, base, size, a)
  {
    SubtractIsPointwise(regions, base, size);
    forall i: nat, a | i < |regions| && GapClaim(regions, base, size, i, a)
      ensures false
    {
      assert Touches(regions[i], base, size);
      ClaimsAreOwnOrGap(regions[i], base, size, a);
    }
  }

  /** Taken alone, a region is trimmed to itself minus the range exactly when the range touches it. */
  lemma TrimmedIffTouching(r: MemoryRegion, base: u64, size: u64)
    requires r.Valid() && size > 0 && base + size <= 0x1_0000_0000_0000_0000
    ensures (forall a :: Resolve(Pieces(r, base, size), a) == ResolveOutside([r], base, size, a))
            <==> Touches(r, base, size)
  {
    forall a
      ensures Resolve(Pieces(r, base, size), a) == ResolveOutside([r], base, size, a) <==> !InGap(r, base, size, a)
    {
      PiecesClaim(r, base, size, a);
      ClaimsAreOwnOrGap(r, base, size, a);
      ResolveNewest([r], a, if r.Contains(a) then 0 else -1);
    }
    ClaimsAreOwnOrGap(r, base, size, 0);
  }

  /** Departure: unmapping a range beyond a one-page region leaves the pages between them mapped. */
  lemma UnmapFarAwayEnlarges()
    ensures var r := MemoryRegion(0x1000, 0x1000, 0x9000);
            && r.Valid()
            && SubtractRange([r], 0x8000, 0x1000) == [MemoryRegion(0x1000, 0x7000, 0x9000)]
            && Resolve([r], 0x2000) == None
            && Resolve(SubtractRange([r], 0x8000, 0x1000), 0x2000) == Some(0xA000)
  {
    var r := MemoryRegion(0x1000, 0x1000, 0x9000);
    assert SubtractRange([r], 0x8000, 0x1000) == Pieces(r, 0x8000, 0x1000) + SubtractRange([], 0x8000, 0x1000);
    SubtractResolves([r], 0x8000, 0x1000, 0x2000, 0);
    ResolveNewest([r], 0x2000, -1);
  }

  // ----- Invariants of the list ------------------------------------------------

  lemma PiecesValid(r: MemoryRegion, base: u64, size: u64)
    requires r.Valid()
    requires size > 0 && base % 4096 == 0 && size % 4096 == 0 && base + size <= 0x1_0000_0000_0000_0000
    ensures ValidRegions(Pieces(r, base, size))
  {
    var end := base + size;
    PiecesArePlain(r, base, size);
    AlignedSums(base, size);
    AlignedSums(r.baseAddress, r.size);
    AlignedSums(base, r.baseAddress);
    AlignedSums(r.baseAddress + r.size, end);
    AlignedSums(end, r.baseAddress);
    AlignedSums(r.hostMemory, end - r.baseAddress);
    WrapKeepsPageOffset(r.hostMemory + end - r.baseAddress);
  }

  lemma {:induction false} SubtractKeepsValid(regions: seq<MemoryRegion>, base: u64, size: u64)
    requires ValidRegions(regions)
    requires size > 0 && base % 4096 == 0 && size % 4096 == 0 && base + size <= 0x1_0000_0000_0000_0000
    ensures ValidRegions(SubtractRange(regions, base, size))
  {
    if regions != [] {
      SubtractKeepsValid(regions[1..], base, size);
      PiecesValid(regions[0], base, size);
    }
  }
}
