/** The virtual machine object: its region list and host memory, changed in place. */
module VirtualMachines {
  import opened Bits
  import opened ByteBuffers
  import opened Wrappers
  import opened Regions
  import opened Mapping
  import opened PhysicalMemory

  // ----- The pass over the list, round by round ---------------------------------------

  /** The last address of an unmapped range, as the code computes it. */
  function LastOf(base: u64, size: u64): u64 {
    Wrap(base + size - 1)
  }

  /** The list and the iterator between two rounds of SubtractMemoryRange. */
  datatype Pass = Pass(regions: seq<MemoryRegion>, it: nat) {
    predicate Ended() {
      it >= |regions|
    }
  }

  /** One round of the loop. */
  function Round(p: Pass, base: u64, size: u64): Pass
    requires !p.Ended()
  {
    var r, before, after := p.regions[p.it], p.regions[..p.it], p.regions[p.it + 1..];
    match Classify(r, base, LastOf(base, size))
    case Covered => Pass(before + after, p.it)
    case CoversEnd => Pass(p.regions[p.it := CutEnd(r, base)], p.it + 1)
    case CoversStart => Pass(p.regions[p.it := CutStart(r, LastOf(base, size))], p.it + 1)
    case Inside => Pass(before + [SecondPart(r, base, size), CutEnd(r, base)] + after, p.it + 1)
  }

  function Rounds(p: Pass, base: u64, size: u64, n: nat): Pass
    decreases n
  {
    if n == 0 || p.Ended() then p else Rounds(Round(p, base, size), base, size, n - 1)
  }

  /** Some region from the iterator on is to be split. */
  ghost predicate SomeInside(p: Pass, base: u64, size: u64) {
    exists i | p.it <= i < |p.regions| :: Classify(p.regions[i], base, LastOf(base, size)).Inside?
  }

  /** The range does not wrap around, or no region is to be split. */
  ghost predicate Terminates(p: Pass, base: u64, size: u64) {
    size > 0 && (base + size <= 0x1_0000_0000_0000_0000 || !SomeInside(p, base, size))
  }

  /**
   * The first part of a split region is visited a second time. It is left as it
   * is when the range does not wrap around, and split again when it does.
   */
  lemma FirstPartAgain(r: MemoryRegion, base: u64, size: u64)
    requires size > 0 && Classify(r, base, LastOf(base, size)).Inside?
    ensures var again := Classify(CutEnd(r, base), base, LastOf(base, size));
            if base + size <= 0x1_0000_0000_0000_0000
            then again.CoversEnd? && CutEnd(CutEnd(r, base), base) == CutEnd(r, base)
            else again.Inside?
  {
    ModShift(base + size - 1, 1);
    assert CutEnd(r, base).FinalAddress() == Wrap(base - 1) == base - 1;
  }

  /** For a range that wraps around, a round leaves a region to split whenever there was one. */
  lemma SplitsForever(p: Pass, base: u64, size: u64)
    requires base + size > 0x1_0000_0000_0000_0000 && SomeInside(p, base, size)
    ensures !p.Ended() && SomeInside(Round(p, base, size), base, size)
  {
    var f, next := LastOf(base, size), Round(p, base, size);
    var i :| p.it <= i < |p.regions| && Classify(p.regions[i], base, f).Inside?;
    hide CutEnd, CutStart, SecondPart;
    if Classify(p.regions[p.it], base, f).Inside? {
      FirstPartAgain(p.regions[p.it], base, size);
      assert next.regions[p.it + 1] == CutEnd(p.regions[p.it], base);
    } else if Classify(p.regions[p.it], base, f).Covered? {
      assert next.regions[i - 1] == p.regions[i];
    } else {
      assert next.regions[i] == p.regions[i];
    }
  }

  lemma {:induction false} NeverEnds(p: Pass, base: u64, size: u64, n: nat)
    requires base + size > 0x1_0000_0000_0000_0000 && SomeInside(p, base, size)
    ensures !Rounds(p, base, size, n).Ended()
    decreases n
  {
    hide Round, SomeInside;
    SplitsForever(p, base, size);
    if n > 0 {
      NeverEnds(Round(p, base, size), base, size, n - 1);
    }
  }

  // ----- What the pass leaves ----------------------------------------------------------

  /** The list the rest of the pass will produce from position it. */
  function Remaining(p: Pass, base: u64, size: u64): seq<MemoryRegion>
    requires p.it <= |p.regions|
  {
    p.regions[..p.it] + SubtractRange(p.regions[p.it..], base, size)
  }

  lemma RemainingOf(before: seq<MemoryRegion>, after: seq<MemoryRegion>, base: u64, size: u64)
    ensures Remaining(Pass(before + after, |before|), base, size) == before + SubtractRange(after, base, size)
  {
    assert (before + after)[..|before|] == before && (before + after)[|before|..] == after;
  }

  lemma RemainingStep(p: Pass, base: u64, size: u64)
    requires !p.Ended()
    ensures Remaining(p, base, size) ==
            p.regions[..p.it] + Pieces(p.regions[p.it], base, size) + SubtractRange(p.regions[p.it + 1..], base, size)
  {
    assert p.regions[p.it..][0] == p.regions[p.it] && p.regions[p.it..][1..] == p.regions[p.it + 1..];
  }

  lemma CoveredStep(p: Pass, base: u64, size: u64)
    requires !p.Ended() && Classify(p.regions[p.it], base, LastOf(base, size)).Covered?
    ensures Remaining(Round(p, base, size), base, size) == Remaining(p, base, size)
  {
    hide Remaining, SubtractRange, CutEnd, CutStart, SecondPart;
    var before, after := p.regions[..p.it], p.regions[p.it + 1..];
    RemainingStep(p, base, size);
    RemainingOf(before, after, base, size);
    assert before + [] == before;
  }

  /** Cases 2 and 3 replace the region by one piece. */
  lemma CutStep(p: Pass, base: u64, size: u64)
    requires !p.Ended()
    requires var c := Classify(p.regions[p.it], base, LastOf(base, size)); c.CoversEnd? || c.CoversStart?
    ensures Remaining(Round(p, base, size), base, size) == Remaining(p, base, size)
  {
    hide Remaining, SubtractRange, CutEnd, CutStart, SecondPart;
    var before, after := p.regions[..p.it], p.regions[p.it + 1..];
    var piece := Pieces(p.regions[p.it], base, size);
    RemainingStep(p, base, size);
    assert p.regions[p.it := piece[0]] == (before + piece) + after;
    RemainingOf(before + piece, after, base, size);
  }

  lemma SplitStep(p: Pass, base: u64, size: u64)
    requires size > 0 && base + size <= 0x1_0000_0000_0000_0000
    requires !p.Ended() && Classify(p.regions[p.it], base, LastOf(base, size)).Inside?
    ensures Remaining(Round(p, base, size), base, size) == Remaining(p, base, size)
  {
    var r, before, after := p.regions[p.it], p.regions[..p.it], p.regions[p.it + 1..];
    FirstPartAgain(r, base, size);
    var second, first := SecondPart(r, base, size), CutEnd(r, base);
    assert Pieces(first, base, size) == [first];
    assert Pieces(r, base, size) == [second, first];
    hide Remaining, CutEnd, CutStart, SecondPart, Pieces, Classify, SubtractRange;
    var next := Pass(before + [second, first] + after, p.it + 1);
    assert next.regions[p.it + 1] == first && next.regions[..p.it + 1] == before + [second];
    assert next.regions[p.it + 2..] == after;
    RemainingStep(next, base, size);
    RemainingStep(p, base, size);
    assert before + [second] + [first] == before + [second, first];
  }

  /** Each round leaves the list the pass will produce as it was, keeps termination, and gets closer to the end. */
  lemma PassStep(p: Pass, base: u64, size: u64)
    requires !p.Ended() && Terminates(p, base, size)
    ensures var next, f := Round(p, base, size), LastOf(base, size);
            && next.it <= |next.regions| && Remaining(next, base, size) == Remaining(p, base, size)
            && Terminates(next, base, size)
            && if Classify(p.regions[p.it], base, f).Inside?
               then |next.regions| - next.it == |p.regions| - p.it && !Classify(next.regions[next.it], base, f).Inside?
               else |next.regions| - next.it < |p.regions| - p.it
  {
    hide Remaining, CutEnd, CutStart, SecondPart;
    match Classify(p.regions[p.it], base, LastOf(base, size))
    case Covered => CoveredStep(p, base, size);
    case CoversEnd => CutStep(p, base, size);
    case CoversStart => CutStep(p, base, size);
    case Inside =>
      SplitStep(p, base, size);
      FirstPartAgain(p.regions[p.it], base, size);
  }

  /** Cutting the region and inserting the second part before it puts the two pieces in its place. */
  lemma InsertSecond(regions: seq<MemoryRegion>, it: nat, first: MemoryRegion, second: MemoryRegion)
    requires it < |regions|
    ensures var cut := regions[it := first];
            cut[..it] + [second] + cut[it..] == regions[..it] + [second, first] + regions[it + 1..]
  {
  }

  lemma NothingLeft(regions: seq<MemoryRegion>, base: u64, size: u64)
    ensures Remaining(Pass(regions, |regions|), base, size) == regions
  {
  }

  lemma {:induction false} RoundsEnd(p: Pass, base: u64, size: u64) returns (n: nat)
    requires p.it <= |p.regions| && Terminates(p, base, size)
    ensures var end := Rounds(p, base, size, n);
            end.Ended() && end.regions == Remaining(p, base, size)
    decreases |p.regions| - p.it,
              if !p.Ended() && Classify(p.regions[p.it], base, LastOf(base, size)).Inside? then 1 else 0
  {
    hide Round, Remaining, Terminates;
    if p.Ended() {
      NothingLeft(p.regions, base, size);
      n := 0;
    } else {
      PassStep(p, base, size);
      var rest := RoundsEnd(Round(p, base, size), base, size);
      n := rest + 1;
    }
  }

  /**
   * The pass over a list ends if and only if the range does not wrap around or
   * lies inside no region; then it leaves the list that subtracts the range from
   * every region, and otherwise no number of rounds ends it.
   */
  lemma PassEndsIff(regions: seq<MemoryRegion>, base: u64, size: u64)
    requires size > 0
    ensures (exists n: nat :: Rounds(Pass(regions, 0), base, size, n).Ended())
            <==> Terminates(Pass(regions, 0), base, size)
    ensures Terminates(Pass(regions, 0), base, size) ==>
              exists n: nat :: Rounds(Pass(regions, 0), base, size, n) ==
                               Pass(SubtractRange(regions, base, size), |SubtractRange(regions, base, size)|)
  {
    var p := Pass(regions, 0);
    if Terminates(p, base, size) {
      var n := RoundsEnd(p, base, size);
      RoundsStayInside(p, base, size, n);
      assert regions[..0] == [] && regions[0..] == regions;
      assert Remaining(p, base, size) == SubtractRange(regions, base, size);
      assert Rounds(p, base, size, n).Ended();
    } else {
      forall n: nat
        ensures !Rounds(p, base, size, n).Ended()
      {
        NeverEnds(p, base, size, n);
      }
    }
  }

  lemma {:induction false} RoundsStayInside(p: Pass, base: u64, size: u64, n: nat)
    requires p.it <= |p.regions|
    ensures var end := Rounds(p, base, size, n);
            end.it <= |end.regions|
    decreases n
  {
    if n > 0 && !p.Ended() {
      RoundsStayInside(Round(p, base, size), base, size, n - 1);
    }
  }

  /** Departure: unmapping 2^64 - 0x1000 bytes from 0x2000 never ends when pages 0x1000 to 0x3FFF are mapped. */
  lemma UnmapNeverEnds(limits: Limits, n: nat)
    requires limits.largeMemoryAllocation
    ensures var size := 0xFFFF_FFFF_FFFF_F000;
            && CheckUnmap(limits, 0x2000, size).OK?
            && !Rounds(Pass([MemoryRegion(0x1000, 0x3000, 0x9000)], 0), 0x2000, size, n).Ended()
  {
    hide And, Rounds, CutEnd, CutStart, SecondPart;
    var r, size := MemoryRegion(0x1000, 0x3000, 0x9000), 0xFFFF_FFFF_FFFF_F000;
    UnmapAcceptedIff(limits, 0x2000, size);
    assert Classify([r][0], 0x2000, LastOf(0x2000, size)).Inside?;
    NeverEnds(Pass([r], 0), 0x2000, size, n);
  }

  lemma {:induction false} FindShortens(regions: seq<MemoryRegion>, paddr: u64, finalPAddr: u64, size: u64)
    ensures var a := Find(regions, paddr, finalPAddr, size);
            a.Some? ==> a.value.size <= size
  {
    if regions != [] {
      var r, older := regions[|regions| - 1], regions[..|regions| - 1];
      FindShortens(older, paddr, finalPAddr, size);
      if size > r.size {
        FindShortens(older, paddr, finalPAddr, size - r.size);
      }
    }
  }

  class VirtualMachine {
    var regions: seq<MemoryRegion>
    const host: array<byte>
    const limits: Limits

    ghost predicate Valid()
      reads this
    {
      host.Length == 0x1_0000_0000_0000_0000 && limits.Valid()
    }

    constructor (host: array<byte>, limits: Limits)
      requires host.Length == 0x1_0000_0000_0000_0000 && limits.Valid()
      ensures Valid() && regions == [] && this.host == host && this.limits == limits
    {
      this.host := host;
      this.limits := limits;
      regions := [];
    }

    // ----- Regions -----------------------------------------------------------------

    /** Verdict stands for the hypervisor's answer to a request that passes the checks. */
    method MapGuestMemory(base: u64, size: u64, memory: u64, verdict: MemoryMappingStatus)
      returns (status: MemoryMappingStatus)
      requires Valid()
      modifies `regions
      ensures status == Status(limits, Map(base, size, memory, verdict))
      ensures CheckMap(limits, base, size, memory).OK? ==> status == verdict
      ensures regions == if status.OK? then old(regions) + [MemoryRegion(base, size, memory)] else old(regions)
      ensures old(ValidRegions(regions)) ==>
                (ValidRegions(regions) <==> !status.OK? || base + size <= 0x1_0000_0000_0000_0000)
    {
      status := CheckMap(limits, base, size, memory);
      if status.OK? {
        status := verdict;
        if status.OK? {
          regions := regions + [MemoryRegion(base, size, memory)];
        }
      }
      if status.OK? && ValidRegions(old(regions)) {
        MapKeepsValidIff(limits, old(regions), Map(base, size, memory, verdict));
      }
    }

    /** The hypervisor is taken not to accept a request on which the pass would never end. */
    method UnmapGuestMemory(base: u64, size: u64, verdict: MemoryMappingStatus) returns (status: MemoryMappingStatus)
      requires Valid()
      requires Status(limits, Unmap(base, size, verdict)).OK? ==> Terminates(Pass(regions, 0), base, size)
      modifies `regions
      ensures status == Status(limits, Unmap(base, size, verdict))
      ensures CheckUnmap(limits, base, size).OK? ==> status == verdict
      ensures regions == if status.OK? then SubtractRange(old(regions), base, size) else old(regions)
      ensures base + size <= 0x1_0000_0000_0000_0000 && old(ValidRegions(regions)) ==> ValidRegions(regions)
      ensures base + size <= 0x1_0000_0000_0000_0000 && old(ValidRegions(regions)) && status.OK? ==>
                ((forall a :: Resolve(regions, a) == ResolveOutside(old(regions), base, size, a))
                 <==> GapsHarmless(old(regions), base, size))
    {
      status := CheckUnmap(limits, base, size);
      if status.OK? {
        status := verdict;
        if status.OK? {
          CheckedMeansAligned(limits, Unmap(base, size, verdict));
          SubtractMemoryRange(base, size);
          if base + size <= 0x1_0000_0000_0000_0000 && ValidRegions(old(regions)) {
            SubtractKeepsValid(old(regions), base, size);
            SubtractIsPointwise(old(regions), base, size);
          }
        }
      }
    }

    method SubtractMemoryRange(base: u64, size: u64)
      requires Terminates(Pass(regions, 0), base, size)
      modifies `regions
      ensures regions == SubtractRange(old(regions), base, size)
    {
      var finalAddress := Wrap(base + size - 1);
      assert Remaining(Pass(regions, 0), base, size) == SubtractRange(regions, base, size);
      hide Remaining, Terminates, SubtractRange, CutEnd, CutStart, SecondPart;
      var it := 0;
      while it < |regions|
        invariant 0 <= it <= |regions| && Terminates(Pass(regions, it), base, size)
        invariant Remaining(Pass(regions, it), base, size) == SubtractRange(old(regions), base, size)
        decreases |regions| - it, if it < |regions| && Classify(regions[it], base, finalAddress).Inside? then 1 else 0
      {
        var r := regions[it];
        ghost var next := Round(Pass(regions, it), base, size);
        PassStep(Pass(regions, it), base, size);
        if base <= r.baseAddress && finalAddress >= r.FinalAddress() {
          regions := regions[..it] + regions[it + 1..];
          continue;
        } else if base > r.baseAddress && finalAddress >= r.FinalAddress() {
          regions := regions[it := CutEnd(r, base)];
        } else if base <= r.baseAddress && finalAddress < r.FinalAddress() {
          regions := regions[it := CutStart(r, finalAddress)];
        } else {
          InsertSecond(regions, it, CutEnd(r, base), SecondPart(r, base, size));
          regions := regions[it := CutEnd(r, base)];
          regions := regions[..it] + [SecondPart(r, base, size)] + regions[it..];
        }
        it := it + 1;
      }
      NothingLeft(regions, base, size);
    }

    // ----- Physical memory -----------------------------------------------------------

    /** Copies a block of host memory to a buffer. */
    method CopyOut(from: u64, size: nat, value: array<byte>, offset: nat)
      requires Valid() && value != host && offset + size <= value.Length
      modifies value
      ensures value[..] == old(value[..offset]) + Peek(host[..], Span(from, size)) + old(value[offset + size..])
    {
      var n := 0;
      while n < size
        invariant 0 <= n <= size
        invariant value[..offset] == old(value[..offset]) && value[offset + size..] == old(value[offset + size..])
        invariant forall i | 0 <= i < n :: value[offset + i] == host[Span(from, size)[i]]
      {
        value[offset + n] := host[Wrap(from + n)];
        n := n + 1;
      }
      assert value[offset..offset + size] == Peek(host[..], Span(from, size));
      assert value[..] == value[..offset] + value[offset..offset + size] + value[offset + size..];
    }

    /** Copies a block of a buffer to host memory. */
    method CopyIn(to: u64, size: nat, value: array<byte>, offset: nat)
      requires Valid() && value != host && offset + size <= value.Length
      modifies host
      ensures host[..] == Poke(old(host[..]), Span(to, size), value[offset..offset + size])
    {
      var n := 0;
      ghost var before: HostMemory, ps, bytes := host[..], Span(to, size), value[offset..offset + size];
      while n < size
        invariant 0 <= n <= size
        invariant host[..] == Poke(before, ps[..n], bytes[..n])
      {
        PokeAppend(before, ps[..n], bytes[..n], [ps[n]], [bytes[n]]);
        assert ps[..n + 1] == ps[..n] + [ps[n]] && bytes[..n + 1] == bytes[..n] + [bytes[n]];
        host[Wrap(to + n)] := value[offset + n];
        n := n + 1;
      }
      assert ps[..n] == ps && bytes[..n] == bytes;
    }

    method MemRead(paddr: u64, size: u64, value: array<byte>, offset: nat) returns (ok: bool)
      requires Valid() && value != host && offset + size <= value.Length
      modifies value
      ensures ok == FindAccess(regions, paddr, size).Some?
      ensures !ok ==> value[..] == old(value[..])
      ensures ok ==> var a := FindAccess(regions, paddr, size).value;
                a.size <= size &&
                value[..] == old(value[..offset]) + Peek(host[..], Span(a.host, a.size)) + old(value[offset + a.size..])
    {
      FindShortens(regions, paddr, Wrap(paddr + size - 1), size);
      var finalPAddr := Wrap(paddr + size - 1);
      var remaining: u64 := size;
      var it := |regions|;
      assert regions[..it] == regions;
      while it > 0
        invariant 0 <= it <= |regions| && remaining <= size
        invariant Find(regions[..it], paddr, finalPAddr, remaining) == FindAccess(regions, paddr, size)
      {
        it := it - 1;
        var r := regions[it];
        assert regions[..it + 1][..it] == regions[..it];
        if paddr >= r.baseAddress && finalPAddr <= r.FinalAddress() {
          if remaining <= r.size {
            CopyOut(Wrap(r.hostMemory + paddr - r.baseAddress), remaining, value, offset);
            return true;
          }
          remaining := remaining - r.size;
        }
      }
      return false;
    }

    method MemWrite(paddr: u64, size: u64, value: array<byte>, offset: nat) returns (ok: bool)
      requires Valid() && value != host && offset + size <= value.Length
      modifies host
      ensures ok == FindAccess(regions, paddr, size).Some?
      ensures !ok ==> host[..] == old(host[..])
      ensures ok ==> var a := FindAccess(regions, paddr, size).value;
                a.size <= size &&
                host[..] == Poke(old(host[..]), Span(a.host, a.size), value[offset..offset + a.size])
    {
      FindShortens(regions, paddr, Wrap(paddr + size - 1), size);
      var finalPAddr := Wrap(paddr + size - 1);
      var remaining: u64 := size;
      var it := |regions|;
      assert regions[..it] == regions;
      while it > 0
        invariant 0 <= it <= |regions| && remaining <= size
        invariant Find(regions[..it], paddr, finalPAddr, remaining) == FindAccess(regions, paddr, size)
        invariant host[..] == old(host[..])
      {
        it := it - 1;
        var r := regions[it];
        assert regions[..it + 1][..it] == regions[..it];
        if paddr >= r.baseAddress && finalPAddr <= r.FinalAddress() {
          if remaining <= r.size {
            CopyIn(Wrap(r.hostMemory + paddr - r.baseAddress), remaining, value, offset);
            return true;
          }
          remaining := remaining - r.size;
        }
      }
      return false;
    }
  }
}
