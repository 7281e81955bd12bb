/** The virtual processor object: linear memory accesses on a virtual machine's memory. */
module VirtualProcessors {
  import opened Bits
  import opened ByteBuffers
  import opened Wrappers
  import opened Regions
  import opened PhysicalMemory
  import opened Paging
  import opened LinearMemory
  import opened VirtualMachines

  lemma PageStart(x: u64)
    ensures And(x, Not(4095)) == x - x % 4096
  {
    Powers();
    AndHighMask(x, 12, 64);
  }

  /** The last address of the page an address lies in, as the code computes it. */
  lemma PageEnd(laddr: u64)
    ensures Wrap(And(Wrap(laddr + 4096), Not(4095)) - 1) == laddr - laddr % 4096 + 4095
  {
    hide And;
    PageStart(Wrap(laddr + 4096));
    WrapKeepsPageOffset(laddr + 4096);
    if laddr + 4096 >= 0x1_0000_0000_0000_0000 {
      ModShift(laddr + 4096, 1);
      LastPage(laddr);
      ModShift(-1, 0);
    }
  }

  lemma LastPage(laddr: u64)
    requires laddr + 4096 >= 0x1_0000_0000_0000_0000
    ensures laddr - laddr % 4096 == 0xFFFF_FFFF_FFFF_F000
  {
  }

  // ----- The loop's cursor --------------------------------------------------------------

  /** Where the loop stands: the chunk's first address, its page's last, the bytes done, and the chunk's size. */
  datatype Cursor = Cursor(start: u64, end: u64, pos: u64, copySize: u64) {
    predicate At(size: u64) {
      && pos <= size
      && (pos < size ==> end == start - start % 4096 + 4095 && copySize == ChunkSize(start, size - pos))
    }

    function Next(size: u64): Cursor
      requires pos + copySize <= size
    {
      var rest := size - (pos + copySize);
      Cursor(Wrap(end + 1), Wrap(end + 4096), pos + copySize, if 4096 < rest then 4096 else rest)
    }
  }

  /** The chunk lies in one page, and the next one starts where it ends unless nothing is left. */
  lemma CursorStep(c: Cursor, size: u64)
    requires c.At(size) && c.pos < size
    ensures c.copySize > 0 && c.pos + c.copySize <= size && InPage(c.start, c.copySize)
    ensures c.Next(size).At(size)
    ensures c.pos + c.copySize < size ==> c.Next(size).start == Wrap(c.start + c.copySize)
  {
    if c.pos + c.copySize < size {
      NextPage(c.start);
    }
  }

  lemma NextPage(start: u64)
    ensures var end := start - start % 4096 + 4095;
            var next := Wrap(end + 1);
            next % 4096 == 0 && Wrap(end + 4096) == next + 4095
  {
    var end := start - start % 4096 + 4095;
    WrapKeepsPageOffset(end + 1);
    if end + 1 >= 0x1_0000_0000_0000_0000 {
      ModShift(end + 1, 1);
      ModShift(end + 4096, 1);
    }
  }

  lemma CursorStart(laddr: u64, size: u64)
    ensures var end := Wrap(And(Wrap(laddr + 4096), Not(4095)) - 1);
            && laddr <= end && end - laddr < 4096
            && Cursor(laddr, end, 0, if size < end - laddr + 1 then size else end - laddr + 1).At(size)
  {
    hide And;
    PageEnd(laddr);
  }

  // ----- Reading ------------------------------------------------------------------------

  /** Where a valid guest's chunk is found, the access has the chunk's size and starts at its target. */
  lemma ChunkAccess(g: Guest, laddr: u64, size: nat)
    requires ValidRegions(g.regions) && InPage(laddr, size)
    ensures match LinearToPhysical(g, laddr).paddr
            case None => ChunkTarget(g, laddr, size) == None
            case Some(p) => FindAccess(g.regions, p, size) ==
                            match ChunkTarget(g, laddr, size) case None => None case Some(h) => Some(Access(h, size))
  {
    hide LinearToPhysical, Find, Resolve;
    TranslationKeepsOffset(g, laddr);
    var paddr := LinearToPhysical(g, laddr).paddr;
    if paddr.Some? {
      InPageAccess(g.regions, paddr.value, size);
    }
  }

  /** What remains of an access of size bytes at laddr is the access at the cursor. */
  ghost predicate Reached(g: Guest, laddr: u64, size: u64, c: Cursor, done: seq<u64>) {
    && c.At(size) && |done| == c.pos
    && LinearTargets(g, laddr, size) == LinearTargets(g, c.start, size - c.pos).After(done)
  }

  lemma ReachedStart(g: Guest, laddr: u64, size: u64, c: Cursor)
    requires c.At(size) && c.start == laddr && c.pos == 0
    ensures Reached(g, laddr, size, c, [])
  {
    hide LinearTargets;
    var t := LinearTargets(g, laddr, size);
    assert [] + t.ps == t.ps;
  }

  lemma ReachedStep(g: Guest, laddr: u64, size: u64, c: Cursor, done: seq<u64>)
    requires Reached(g, laddr, size, c, done) && c.pos < size
    requires c.copySize > 0 && c.pos + c.copySize <= size
    ensures match ChunkTarget(g, c.start, c.copySize)
            case None => LinearTargets(g, laddr, size) == Targets(done, false)
            case Some(h) => Reached(g, laddr, size, c.Next(size), done + Span(h, c.copySize))
  {
    hide LinearTargets, Walked, ChunkTarget, LinearToPhysical, Span, Wrap;
    TargetsUnfold(g, c.start, size - c.pos);
    CursorStep(c, size);
    match ChunkTarget(g, c.start, c.copySize)
    case None => assert done + [] == done;
    case Some(h) =>
      var next := Wrap(c.start + c.copySize);
      NothingUnfold(g, next);
      NothingUnfold(g, c.Next(size).start);
      AfterAfter(LinearTargets(g, next, size - c.pos - c.copySize), Span(h, c.copySize), done);
  }

  lemma ReachedEnd(g: Guest, laddr: u64, size: u64, c: Cursor, done: seq<u64>)
    requires Reached(g, laddr, size, c, done) && c.pos == size
    ensures LinearTargets(g, laddr, size) == Targets(done, true)
  {
    hide LinearTargets;
    NothingUnfold(g, c.start);
    assert done + [] == done;
  }

  /** The buffer holds the bytes read so far, and its original contents from there on. */
  ghost predicate Filled(host: HostMemory, done: seq<u64>, original: seq<byte>, buffer: seq<byte>) {
    |done| <= |original| && buffer == Peek(host, done) + original[|done|..]
  }

  lemma FilledStep(host: HostMemory, done: seq<u64>, span: seq<u64>, original: seq<byte>, buffer: seq<byte>,
                   filled: seq<byte>)
    requires Filled(host, done, original, buffer) && |done| + |span| <= |original|
    requires filled == buffer[..|done|] + Peek(host, span) + buffer[|done| + |span|..]
    ensures Filled(host, done + span, original, filled)
  {
    assert Peek(host, done + span) == Peek(host, done) + Peek(host, span);
    assert buffer[..|done|] == Peek(host, done);
    assert buffer[|done| + |span|..] == original[|done| + |span|..];
  }

  /** The bytes replace those of the buffer from a position on, and the rest of it stays. */
  ghost predicate Overwritten(buffer: seq<byte>, pos: nat, after: seq<byte>, bytes: seq<byte>) {
    pos + |bytes| <= |buffer| && after == buffer[..pos] + bytes + buffer[pos + |bytes|..]
  }

  /** Success and buffer are those of the chunked access. */
  ghost predicate ReadOutcome(g: Guest, laddr: u64, size: u64, original: seq<byte>, ok: bool, buffer: seq<byte>) {
    var t := LinearTargets(g, laddr, size);
    ok == t.all && Filled(g.host, t.ps, original, buffer)
  }

  ghost predicate ReadSoFar(g: Guest, laddr: u64, size: u64, c: Cursor, done: seq<u64>, original: seq<byte>,
                            buffer: seq<byte>)
  {
    Reached(g, laddr, size, c, done) && Filled(g.host, done, original, buffer) && size <= |original|
  }

  lemma ReadStart(g: Guest, laddr: u64, size: u64, c: Cursor, original: seq<byte>)
    requires c.At(size) && c.start == laddr && c.pos == 0 && size <= |original|
    ensures ReadSoFar(g, laddr, size, c, [], original, original)
  {
    ReachedStart(g, laddr, size, c);
    assert Peek(g.host, []) + original[0..] == original;
  }

  /** A round of the loop ends the read or moves the cursor; filled is the buffer after a found chunk. */
  lemma ReadStep(g: Guest, laddr: u64, size: u64, c: Cursor, done: seq<u64>, original: seq<byte>, buffer: seq<byte>,
                 filled: seq<byte>)
    requires ReadSoFar(g, laddr, size, c, done, original, buffer) && c.pos < size
    ensures c.pos + c.copySize <= size && |buffer| == |original|
    ensures match ChunkTarget(g, c.start, c.copySize)
            case None => ReadOutcome(g, laddr, size, original, false, buffer)
            case Some(h) =>
              Overwritten(buffer, c.pos, filled, Peek(g.host, Span(h, c.copySize))) ==>
                ReadSoFar(g, laddr, size, c.Next(size), done + Span(h, c.copySize), original, filled)
  {
    hide Filled, LinearTargets, ChunkTarget, LinearToPhysical, Span, Wrap, Peek;
    CursorStep(c, size);
    ReachedStep(g, laddr, size, c, done);
    FilledLength(g.host, done, original, buffer);
    match ChunkTarget(g, c.start, c.copySize)
    case None =>
    case Some(h) =>
      var span := Span(h, c.copySize);
      if Overwritten(buffer, c.pos, filled, Peek(g.host, span)) {
        FilledStep(g.host, done, span, original, buffer, filled);
      }
  }

  lemma FilledLength(host: HostMemory, done: seq<u64>, original: seq<byte>, buffer: seq<byte>)
    requires Filled(host, done, original, buffer)
    ensures |buffer| == |original|
  {
  }

  lemma ReadEnd(g: Guest, laddr: u64, size: u64, c: Cursor, done: seq<u64>, original: seq<byte>, buffer: seq<byte>)
    requires ReadSoFar(g, laddr, size, c, done, original, buffer) && c.pos == size
    ensures ReadOutcome(g, laddr, size, original, true, buffer)
  {
    ReachedEnd(g, laddr, size, c, done);
  }

  /**
   * What LMemRead promises is, in every mode but PAE, a per-byte read: it succeeds
   * exactly when each byte of the range is mapped, and the buffer then holds the
   * byte behind each address.
   */
  lemma ReadIsPerByte(g: Guest, laddr: u64, size: u64, original: seq<byte>, ok: bool, buffer: seq<byte>)
    requires ValidRegions(g.regions) && !PagingMode(g.regs).PAE? && size <= |original|
    requires ReadOutcome(g, laddr, size, original, ok, buffer)
    ensures |buffer| == |original| && buffer[size..] == original[size..]
    ensures && (ok <==> forall i | 0 <= i < size :: RangeByte(g, laddr, i).Some?)
            && (ok ==> forall i | 0 <= i < size ::
                  RangeByte(g, laddr, i).Some? && buffer[i] == g.host[RangeByte(g, laddr, i).value])
  {
    hide LinearTargets, RangeByte, PagingMode;
    AccessIsPerByte(g, laddr, size);
  }

  // ----- Writing ------------------------------------------------------------------------

  /** What remains of a write is the write of the remaining bytes at the cursor. */
  ghost predicate WrittenSoFar(g: Guest, laddr: u64, value: seq<byte>, c: Cursor, now: Guest) {
    && |value| < 0x1_0000_0000_0000_0000 && c.At(|value|)
    && LinearWrite(g, laddr, value) == LinearWrite(now, c.start, value[c.pos..])
  }

  lemma WrittenStep(g: Guest, laddr: u64, value: seq<byte>, c: Cursor, now: Guest)
    requires WrittenSoFar(g, laddr, value, c, now) && c.pos < |value|
    requires c.copySize > 0 && c.pos + c.copySize <= |value|
    ensures var chunk := value[c.pos..c.pos + c.copySize];
            match ChunkTarget(now, c.start, c.copySize)
            case None => LinearWrite(g, laddr, value) == Written(now, false)
            case Some(h) => WrittenSoFar(g, laddr, value, c.Next(|value|),
                                         now.(host := Poke(now.host, Span(h, c.copySize), chunk)))
  {
    hide LinearWrite, ChunkTarget, LinearToPhysical, Span, Wrap, Poke;
    var rest := value[c.pos..];
    WriteUnfold(now, c.start, rest);
    CursorStep(c, |value|);
    match ChunkTarget(now, c.start, c.copySize)
    case None =>
    case Some(h) =>
      assert rest[..c.copySize] == value[c.pos..c.pos + c.copySize];
      assert rest[c.copySize..] == value[c.pos + c.copySize..];
      var now' := now.(host := Poke(now.host, Span(h, c.copySize), rest[..c.copySize]));
      WriteNothing(now', Wrap(c.start + c.copySize));
      WriteNothing(now', c.Next(|value|).start);
  }

  lemma WrittenEnd(g: Guest, laddr: u64, value: seq<byte>, c: Cursor, now: Guest)
    requires WrittenSoFar(g, laddr, value, c, now) && c.pos == |value|
    ensures LinearWrite(g, laddr, value) == Written(now, true)
  {
    WriteNothing(now, c.start);
  }

  lemma WriteNothing(g: Guest, laddr: u64)
    ensures forall value | |value| == 0 :: LinearWrite(g, laddr, value) == Written(g, true)
  {
  }

  class VirtualProcessor {
    const vm: VirtualMachine
    var regs: ControlRegisters

    constructor (vm: VirtualMachine, regs: ControlRegisters)
      ensures this.vm == vm && this.regs == regs
    {
      this.vm := vm;
      this.regs := regs;
    }

    ghost predicate Valid()
      reads this, vm
    {
      vm.Valid() && ValidRegions(vm.regions)
    }

    function Guest(): Guest
      requires Valid()
      reads this, vm, vm.host
    {
      Paging.Guest(vm.regions, vm.host[..], regs)
    }

    /** One round of the reading loop: translate the chunk's first address, then copy the chunk. */
    method ReadChunk(laddr: u64, size: u64, value: array<byte>, pos: nat) returns (ok: bool)
      requires Valid() && value != vm.host && pos + size <= value.Length && InPage(laddr, size)
      modifies value
      ensures ok == ChunkTarget(Guest(), laddr, size).Some?
      ensures !ok ==> value[..] == old(value[..])
      ensures ok ==> Overwritten(old(value[..]), pos, value[..],
                                 Peek(Guest().host, Span(ChunkTarget(Guest(), laddr, size).value, size)))
    {
      hide ChunkTarget, LinearToPhysical, FindAccess, Span, Peek;
      ChunkAccess(Guest(), laddr, size);
      var physAddr := LinearToPhysical(Guest(), laddr).paddr;
      if physAddr.None? {
        return false;
      }
      ok := vm.MemRead(physAddr.value, size, value, pos);
    }

    /** One round of the writing loop. */
    method WriteChunk(laddr: u64, size: u64, value: array<byte>, pos: nat) returns (ok: bool)
      requires Valid() && value != vm.host && pos + size <= value.Length && InPage(laddr, size)
      modifies vm.host
      ensures ok == ChunkTarget(old(Guest()), laddr, size).Some?
      ensures Valid() && Guest() == if !ok then old(Guest()) else
                old(Guest()).(host := Poke(old(vm.host[..]), Span(ChunkTarget(old(Guest()), laddr, size).value, size),
                                           value[pos..pos + size]))
    {
      hide ChunkTarget, LinearToPhysical, FindAccess, Span, Poke;
      ChunkAccess(Guest(), laddr, size);
      var physAddr := LinearToPhysical(Guest(), laddr).paddr;
      if physAddr.None? {
        return false;
      }
      ok := vm.MemWrite(physAddr.value, size, value, pos);
    }

    /**
     * Reads linear memory chunk by chunk. It succeeds exactly when every chunk
     * can be reached, and fills the buffer with the bytes up to the failing chunk.
     */
    method LMemRead(laddr: u64, size: u64, value: array?<byte>) returns (ok: bool, bytesRead: Option<u64>)
      requires Valid() && (value != null ==> value != vm.host && size <= value.Length)
      modifies value
      ensures bytesRead == if ok then Some(size) else None
      ensures value == null ==> !ok
      ensures value != null ==> ReadOutcome(old(Guest()), laddr, size, old(value[..]), ok, value[..])
    {
      hide LinearTargets, ChunkTarget, LinearToPhysical, Span, And, ValidRegions, Find, Pow2, Peek;
      hide ReadOutcome, Overwritten, Guest, Valid;
      if value == null {
        return false, None;
      }
      ghost var g, original := Guest(), value[..];
      ghost var done: seq<u64> := [];
      var srcAddrStart: u64 := laddr;
      var srcAddrEnd: u64 := Wrap(And(Wrap(srcAddrStart + 4096), Not(4095)) - 1);
      var pos: u64 := 0;
      CursorStart(laddr, size);
      var copySize: u64 := srcAddrEnd - srcAddrStart + 1;
      if size < copySize {
        copySize := size;
      }
      ReadStart(g, laddr, size, Cursor(srcAddrStart, srcAddrEnd, pos, copySize), original);
      hide Wrap, ReadSoFar, ChunkSize, Cursor.At, InPage;
      while pos < size
        invariant Valid() && Guest() == g
        invariant pos <= size && Cursor(srcAddrStart, srcAddrEnd, pos, copySize).At(size)
        invariant ReadSoFar(g, laddr, size, Cursor(srcAddrStart, srcAddrEnd, pos, copySize), done, original, value[..])
      {
        ghost var c, buffer := Cursor(srcAddrStart, srcAddrEnd, pos, copySize), value[..];
        CursorStep(c, size);
        var found := ReadChunk(srcAddrStart, copySize, value, pos);
        ReadStep(g, laddr, size, c, done, original, buffer, value[..]);
        if !found {
          return false, None;
        }
        done := done + Span(ChunkTarget(g, srcAddrStart, copySize).value, copySize);

        pos := pos + copySize;
        srcAddrStart := Wrap(srcAddrEnd + 1);
        srcAddrEnd := Wrap(srcAddrEnd + 4096);
        copySize := size - pos;
        if 4096 < copySize {
          copySize := 4096;
        }
        assert Cursor(srcAddrStart, srcAddrEnd, pos, copySize) == c.Next(size);
      }
      ReadEnd(g, laddr, size, Cursor(srcAddrStart, srcAddrEnd, pos, copySize), done, original, value[..]);
      return true, Some(pos);
    }

    /** Writes linear memory chunk by chunk, each chunk translated in the memory the earlier ones left. */
    method LMemWrite(laddr: u64, size: u64, value: array?<byte>) returns (ok: bool, bytesWritten: Option<u64>)
      requires Valid() && (value != null ==> value != vm.host && size <= value.Length)
      modifies vm.host
      ensures Valid() && vm.regions == old(vm.regions) && regs == old(regs)
      ensures value == null ==> !ok && bytesWritten == None && vm.host[..] == old(vm.host[..])
      ensures value != null ==>
                && LinearWrite(old(Guest()), laddr, old(value[..size])) == Written(Guest(), ok)
                && bytesWritten == (if ok then Some(size) else None)
    {
      hide LinearWrite, ChunkTarget, LinearToPhysical, Span, Poke, And, ValidRegions, Find, Pow2;
      if value == null {
        return false, None;
      }
      ghost var g, bytes := Guest(), value[..size];
      var srcAddrStart: u64 := laddr;
      var srcAddrEnd: u64 := Wrap(And(Wrap(srcAddrStart + 4096), Not(4095)) - 1);
      var pos: u64 := 0;
      CursorStart(laddr, size);
      var copySize: u64 := srcAddrEnd - srcAddrStart + 1;
      if size < copySize {
        copySize := size;
      }
      assert bytes[pos..] == bytes;
      assert WrittenSoFar(g, laddr, bytes, Cursor(srcAddrStart, srcAddrEnd, pos, copySize), Guest());
      hide Wrap, WrittenSoFar, ChunkSize, Cursor.At, InPage;
      while pos < size
        invariant Valid() && vm.regions == g.regions && regs == g.regs && value[..size] == bytes
        invariant pos <= size && Cursor(srcAddrStart, srcAddrEnd, pos, copySize).At(size)
        invariant WrittenSoFar(g, laddr, bytes, Cursor(srcAddrStart, srcAddrEnd, pos, copySize), Guest())
      {
        ghost var c, now := Cursor(srcAddrStart, srcAddrEnd, pos, copySize), Guest();
        CursorStep(c, size);
        WrittenStep(g, laddr, bytes, c, now);
        assert value[pos..pos + copySize] == bytes[pos..pos + copySize];
        var written := WriteChunk(srcAddrStart, copySize, value, pos);
        if !written {
          return false, None;
        }

        pos := pos + copySize;
        srcAddrStart := Wrap(srcAddrEnd + 1);
        srcAddrEnd := Wrap(srcAddrEnd + 4096);
        copySize := size - pos;
        if 4096 < copySize {
          copySize := 4096;
        }
        assert Cursor(srcAddrStart, srcAddrEnd, pos, copySize) == c.Next(size);
      }
      WrittenEnd(g, laddr, bytes, Cursor(srcAddrStart, srcAddrEnd, pos, copySize), Guest());
      return true, Some(pos);
    }

    /**
     * Writing and then reading the same range. When the bytes written are distinct
     * and disjoint from the entries walked, and the write succeeds, the read
     * succeeds and its buffer holds the value.
     */
    method WriteAndReadBack(laddr: u64, size: u64, value: array<byte>, buffer: array<byte>)
      returns (written: bool, read: bool)
      requires Valid() && value != vm.host && buffer != vm.host && value != buffer
      requires size <= value.Length && size <= buffer.Length
      requires var t := LinearTargets(Guest(), laddr, size);
               Distinct(t.ps) && DisjointFrom(Guest(), t.ps, Walked(Guest(), laddr, size))
      modifies vm.host, buffer
      ensures value[..] == old(value[..])
      ensures written == old(LinearTargets(Guest(), laddr, size)).all
      ensures written ==> read && buffer[..size] == value[..size] && buffer[size..] == old(buffer[size..])
    {
      hide LinearTargets, LinearWrite, Walked, DisjointFrom, Filled, Distinct, LinearRead;
      ghost var g, bytes, original := Guest(), value[..size], buffer[..];
      var n: Option<u64>;
      written, n := LMemWrite(laddr, size, value);
      WriteStoresPrefix(g, laddr, bytes);
      if written {
        WriteThenRead(g, laddr, bytes);
      }
      ghost var g' := Guest();
      read, n := LMemRead(laddr, size, buffer);
      if written {
        ReadReturns(g', laddr, size, original, read, buffer[..], bytes);
      }
    }
  }

  lemma ReadReturns(g: Guest, laddr: u64, size: u64, original: seq<byte>, ok: bool, buffer: seq<byte>, bytes: seq<byte>)
    requires ReadOutcome(g, laddr, size, original, ok, buffer) && size <= |original|
    requires LinearTargets(g, laddr, size).all && LinearRead(g, laddr, size) == bytes
    ensures ok && size <= |buffer| && buffer[..size] == bytes && buffer[size..] == original[size..]
  {
    hide LinearTargets;
  }
}
