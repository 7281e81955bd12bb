/** Mapping and unmapping guest memory: argument checks, resulting list, and what every run keeps. */
module Mapping {
  import opened Bits
  import opened Regions

  datatype MemoryMappingStatus =
    | OK | Unsupported | MisalignedHostMemory | MisalignedAddress | MisalignedSize | EmptyRange
    | PartialUnmapUnsupported | AlreadyAllocated | InvalidFlags | InvalidRange | Failed | OutOfBounds

  /** What the checks depend on: the platform feature and the width of a guest physical address. */
  datatype Limits = Limits(largeMemoryAllocation: bool, maxBits: nat) {
    predicate Valid() {
      maxBits < 64
    }

    function MaxAddress(): nat {
      Pow2(maxBits)
    }

    function Mask(): u64
      requires Valid()
    {
      Pow2Below64(maxBits);
      MaxAddress() - 1
    }
  }

  lemma Pow2Below64(k: nat)
    requires k < 64
    ensures Pow2(k) < 0x1_0000_0000_0000_0000
  {
    Powers();
    Pow2Monotone(k + 1, 64);
  }

  /** The checks of MapGuestMemory, up to the hypervisor's own verdict. */
  function CheckMap(limits: Limits, base: u64, size: u64, memory: u64): MemoryMappingStatus
    requires limits.Valid()
  {
    if And(memory, 0xFFF) != 0 then MisalignedHostMemory
    else if And(base, 0xFFF) != 0 then MisalignedAddress
    else if size == 0 then EmptyRange
    else if And(size, 0xFFF) != 0 then MisalignedSize
    else if size > 0xFFFF_FFFF && !limits.largeMemoryAllocation then Unsupported
    else if And(base, Not(limits.Mask())) != 0 || And(Wrap(base + size - 1), Not(limits.Mask())) != 0 then OutOfBounds
    else OK
  }

  /** The checks of UnmapGuestMemory. */
  function CheckUnmap(limits: Limits, base: u64, size: u64): MemoryMappingStatus {
    if And(base, 0xFFF) != 0 then MisalignedAddress
    else if size == 0 then EmptyRange
    else if And(size, 0xFFF) != 0 then MisalignedSize
    else if size > 0xFFFF_FFFF && !limits.largeMemoryAllocation then Unsupported
    else OK
  }

  lemma PageMask(x: nat)
    ensures And(x, 0xFFF) == x % 4096
  {
    Powers();
    AndLowMask(x, 12);
  }

  /** Masking with the complement of the address mask tests whether an address is in bounds. */
  lemma OutsideMask(limits: Limits, x: u64)
    requires limits.Valid()
    ensures And(x, Not(limits.Mask())) == 0 <==> x < limits.MaxAddress()
  {
    Powers();
    AndHighMask(x, limits.maxBits, 64);
    if x < limits.MaxAddress() {
      ModSmall(x, limits.MaxAddress());
    }
  }

  /** A call on the virtual machine, with the answer its hypervisor would give. */
  datatype Request =
    | Map(base: u64, size: u64, memory: u64, verdict: MemoryMappingStatus)
    | Unmap(base: u64, size: u64, verdict: MemoryMappingStatus)
  {
    predicate NoWrap() {
      base + size <= 0x1_0000_0000_0000_0000
    }
  }

  function Check(limits: Limits, request: Request): MemoryMappingStatus
    requires limits.Valid()
  {
    match request
    case Map(base, size, memory, _) => CheckMap(limits, base, size, memory)
    case Unmap(base, size, _) => CheckUnmap(limits, base, size)
  }

  function Status(limits: Limits, request: Request): MemoryMappingStatus
    requires limits.Valid()
  {
    if Check(limits, request).OK? then request.verdict else Check(limits, request)
  }

  function Apply(limits: Limits, regions: seq<MemoryRegion>, request: Request): seq<MemoryRegion>
    requires limits.Valid()
  {
    if !Status(limits, request).OK? then regions
    else match request
      case Map(base, size, memory, _) => regions + [MemoryRegion(base, size, memory)]
      case Unmap(base, size, _) => SubtractRange(regions, base, size)
  }

  function Run(limits: Limits, regions: seq<MemoryRegion>, requests: seq<Request>): seq<MemoryRegion>
    requires limits.Valid()
    decreases |requests|
  {
    if requests == [] then regions
    else Run(limits, Apply(limits, regions, requests[0]), requests[1..])
  }

  lemma CheckedMeansAligned(limits: Limits, request: Request)
    requires limits.Valid() && Check(limits, request).OK?
    ensures request.size > 0 && request.base % 4096 == 0 && request.size % 4096 == 0
    ensures request.Map? ==> request.memory % 4096 == 0
  {
    PageMask(request.base);
    PageMask(request.size);
    if request.Map? {
      PageMask(request.memory);
    }
  }

  /** A successful map keeps the list valid exactly when its range does not wrap around. */
  lemma MapKeepsValidIff(limits: Limits, regions: seq<MemoryRegion>, request: Request)
    requires limits.Valid() && ValidRegions(regions)
    requires request.Map? && Status(limits, request).OK?
    ensures ValidRegions(Apply(limits, regions, request)) <==> request.NoWrap()
  {
    CheckedMeansAligned(limits, request);
    var after := Apply(limits, regions, request);
    assert after[|regions|] == MemoryRegion(request.base, request.size, request.memory);
  }

  /** The checks accept exactly the aligned ranges whose first address and wrapped last address are in bounds. */
  lemma MapAcceptedIff(limits: Limits, base: u64, size: u64, memory: u64)
    requires limits.Valid()
    ensures CheckMap(limits, base, size, memory).OK? <==>
            && memory % 4096 == 0 && base % 4096 == 0 && size % 4096 == 0 && size > 0
            && (size <= 0xFFFF_FFFF || limits.largeMemoryAllocation)
            && base < limits.MaxAddress() && Wrap(base + size - 1) < limits.MaxAddress()
  {
    PageMask(memory);
    PageMask(base);
    PageMask(size);
    OutsideMask(limits, base);
    OutsideMask(limits, Wrap(base + size - 1));
  }

  /** Which refusal a map request meets, the first failing check first. */
  lemma MapRefusal(limits: Limits, base: u64, size: u64, memory: u64)
    requires limits.Valid()
    ensures CheckMap(limits, base, size, memory) ==
            if memory % 4096 > 0 then MisalignedHostMemory
            else if base % 4096 > 0 then MisalignedAddress
            else if size == 0 then EmptyRange
            else if size % 4096 > 0 then MisalignedSize
            else if size >= 0x1_0000_0000 && !limits.largeMemoryAllocation then Unsupported
            else if base >= limits.MaxAddress() || Wrap(base + size - 1) >= limits.MaxAddress() then OutOfBounds
            else OK
  {
    PageMask(memory);
    PageMask(base);
    PageMask(size);
    OutsideMask(limits, base);
    OutsideMask(limits, Wrap(base + size - 1));
  }

  /** And an unmap request. */
  lemma UnmapRefusal(limits: Limits, base: u64, size: u64)
    ensures CheckUnmap(limits, base, size) ==
            if base % 4096 > 0 then MisalignedAddress
            else if size == 0 then EmptyRange
            else if size % 4096 > 0 then MisalignedSize
            else if size >= 0x1_0000_0000 && !limits.largeMemoryAllocation then Unsupported
            else OK
  {
    PageMask(base);
    PageMask(size);
  }

  lemma UnmapAcceptedIff(limits: Limits, base: u64, size: u64)
    ensures CheckUnmap(limits, base, size).OK? <==>
            && base % 4096 == 0 && size % 4096 == 0 && size > 0
            && (size <= 0xFFFF_FFFF || limits.largeMemoryAllocation)
  {
    PageMask(base);
    PageMask(size);
  }

  /**
   * Departure: the bounds check computes the last address with wraparound, so on
   * a platform with large allocations it lets every aligned range through that
   * starts in bounds and wraps around, such as 0x2000 with size 2^64 - 0x1000.
   */
  lemma WrappingMapIsAccepted(limits: Limits, base: u64, size: u64, memory: u64)
    requires limits.Valid() && limits.largeMemoryAllocation && base < limits.MaxAddress()
    requires base % 4096 == 0 && size % 4096 == 0 && memory % 4096 == 0
    requires base + size > 0x1_0000_0000_0000_0000
    ensures CheckMap(limits, base, size, memory).OK?
    ensures !MemoryRegion(base, size, memory).Valid()
  {
    ModShift(base + size - 1, 1);
    MapAcceptedIff(limits, base, size, memory);
  }

  /** In every run whose ranges do not wrap, every region stays a non-empty, page-aligned block. */
  lemma {:induction false} RunKeepsValid(limits: Limits, regions: seq<MemoryRegion>, requests: seq<Request>)
    requires limits.Valid() && ValidRegions(regions)
    requires forall q | q in requests :: q.NoWrap()
    ensures ValidRegions(Run(limits, regions, requests))
    decreases |requests|
  {
    if requests != [] {
      var q := requests[0];
      assert q in requests;
      if Status(limits, q).OK? {
        CheckedMeansAligned(limits, q);
        if q.Map? {
          MapKeepsValidIff(limits, regions, q);
        } else {
          SubtractKeepsValid(regions, q.base, q.size);
        }
      }
      RunKeepsValid(limits, Apply(limits, regions, q), requests[1..]);
    }
  }

  // ----- The guest physical address bound --------------------------------------

  predicate InBounds(limits: Limits, regions: seq<MemoryRegion>) {
    forall i | 0 <= i < |regions| :: regions[i].baseAddress + regions[i].size <= limits.MaxAddress()
  }

  lemma {:induction false} SubtractBounds(limits: Limits, regions: seq<MemoryRegion>, base: u64, size: u64)
    requires ValidRegions(regions) && InBounds(limits, regions)
    requires size > 0 && base + size <= 0x1_0000_0000_0000_0000
    ensures base <= limits.MaxAddress() || regions == [] ==> InBounds(limits, SubtractRange(regions, base, size))
    ensures base > limits.MaxAddress() && regions != [] ==> !InBounds(limits, SubtractRange(regions, base, size))
  {
    if regions != [] {
      var r := regions[0];
      PiecesArePlain(r, base, size);
      var head, tail := Pieces(r, base, size), SubtractRange(regions[1..], base, size);
      SubtractBounds(limits, regions[1..], base, size);
      if base > limits.MaxAddress() {
        assert head == [r.(size := base - r.baseAddress)];
        assert (head + tail)[0] == head[0];
      } else {
        assert InBounds(limits, head);
      }
    }
  }

  /**
   * A successful request that does not wrap keeps the regions within the
   * guest's address bound, except exactly when it unmaps a range that starts
   * beyond the bound while something is mapped.
   */
  lemma RequestKeepsBoundsIff(limits: Limits, regions: seq<MemoryRegion>, request: Request)
    requires limits.Valid() && ValidRegions(regions) && InBounds(limits, regions)
    requires request.NoWrap() && Status(limits, request).OK?
    ensures InBounds(limits, Apply(limits, regions, request)) <==>
            !(request.Unmap? && request.base > limits.MaxAddress() && regions != [])
  {
    CheckedMeansAligned(limits, request);
    if request.Map? {
      OutsideMask(limits, Wrap(request.base + request.size - 1));
    } else {
      SubtractBounds(limits, regions, request.base, request.size);
    }
  }

  lemma {:induction false} RunKeepsBounds(limits: Limits, regions: seq<MemoryRegion>, requests: seq<Request>)
    requires limits.Valid() && ValidRegions(regions) && InBounds(limits, regions)
    requires forall q | q in requests :: q.NoWrap() && q.base <= limits.MaxAddress()
    ensures InBounds(limits, Run(limits, regions, requests))
    decreases |requests|
  {
    if requests != [] {
      var q := requests[0];
      assert q in requests;
      RunKeepsValid(limits, regions, [q]);
      assert Run(limits, regions, [q]) == Run(limits, Apply(limits, regions, q), [q][1..]);
      if Status(limits, q).OK? {
        RequestKeepsBoundsIff(limits, regions, q);
      }
      RunKeepsBounds(limits, Apply(limits, regions, q), requests[1..]);
    }
  }
}
