/**
 * General purpose registers and their 8, 16, 32 and 64-bit aliases, in the KVM
 * backend (one 64-bit word with mask-and-or updates) and in the HAXM backend
 * (a union of overlaid fields).
 */
module SubRegisters {

  /** The part of a register an alias names. */
  datatype Part = Low8 | High8 | Low16 | Low32 | Full

  /** Registers in the order rax, rcx, rdx, rbx, rsp, rbp, rsi, rdi, r8 to r15. */
  type Gpr = x: int | 0 <= x < 16

  /** An alias, such as (0, High8) for AH, (4, Low8) for SPL or (8, Low32) for R8D. */
  datatype Alias = Alias(gpr: Gpr, part: Part) {
    /** Only rax, rcx, rdx and rbx have a high byte alias. */
    predicate Valid() {
      part.High8? ==> gpr < 4
    }
  }

  function SetLowByte(lhs: bv64, rhs: bv8): bv64 {
    (lhs & 0xFFFF_FFFF_FFFF_FF00) | (rhs as bv64)
  }

  function SetHighByte(lhs: bv64, rhs: bv8): bv64 {
    (lhs & 0xFFFF_FFFF_FFFF_00FF) | ((rhs as bv64) << 8)
  }

  function SetLowWord(lhs: bv64, rhs: bv16): bv64 {
    (lhs & 0xFFFF_FFFF_FFFF_0000) | (rhs as bv64)
  }

  function U8(value: bv64): bv8 {
    (value & 0xFF) as bv8
  }

  function U16(value: bv64): bv16 {
    (value & 0xFFFF) as bv16
  }

  function U32(value: bv64): bv64 {
    value & 0xFFFF_FFFF
  }

  /** The bits of a value that fit the part. */
  function Truncate(value: bv64, part: Part): bv64 {
    match part
    case Low8 => value & 0xFF
    case High8 => value & 0xFF
    case Low16 => value & 0xFFFF
    case Low32 => U32(value)
    case Full => value
  }

  // ----- KVM: mask-and-or on a 64-bit word ------------------------------------------

  function KvmReadWord(word: bv64, part: Part): bv64 {
    match part
    case Low8 => U8(word) as bv64
    case High8 => U8(word >> 8) as bv64
    case Low16 => U16(word) as bv64
    case Low32 => U32(word)
    case Full => word
  }

  function KvmWriteWord(word: bv64, part: Part, value: bv64): bv64 {
    match part
    case Low8 => SetLowByte(word, U8(value))
    case High8 => SetHighByte(word, U8(value))
    case Low16 => SetLowWord(word, U16(value))
    case Low32 => U32(value)
    case Full => value
  }

  type KvmFile = f: seq<bv64> | |f| == 16 witness seq(16, i => 0)

  function KvmRead(file: KvmFile, alias: Alias): bv64 {
    KvmReadWord(file[alias.gpr], alias.part)
  }

  function KvmWrite(file: KvmFile, alias: Alias, value: bv64): KvmFile {
    file[alias.gpr := KvmWriteWord(file[alias.gpr], alias.part, value)]
  }

  datatype Write = Write(alias: Alias, value: bv64)

  function KvmWrites(file: KvmFile, writes: seq<Write>): KvmFile
    decreases |writes|
  {
    if writes == [] then file else KvmWrites(KvmWrite(file, writes[0].alias, writes[0].value), writes[1..])
  }

  /** Two aliases share bits unless they are on different registers or are a low and a high byte. */
  predicate Overlap(a: Alias, b: Alias) {
    a.gpr == b.gpr && !(a.part.Low8? && b.part.High8?) && !(a.part.High8? && b.part.Low8?)
  }

  /**
   * The bits an alias write changes. A 32-bit write reaches the whole register,
   * because it clears the upper half.
   */
  function Reach(part: Part): bv64 {
    match part
    case Low8 => 0xFF
    case High8 => 0xFF00
    case Low16 => 0xFFFF
    case Low32 => 0xFFFF_FFFF_FFFF_FFFF
    case Full => 0xFFFF_FFFF_FFFF_FFFF
  }

  lemma LowByteIsRead(word: bv64, value: bv64)
    ensures KvmReadWord(KvmWriteWord(word, Low8, value), Low8) == Truncate(value, Low8)
  {
  }

  lemma HighByteIsRead(word: bv64, value: bv64)
    ensures KvmReadWord(KvmWriteWord(word, High8, value), High8) == Truncate(value, High8)
  {
  }

  lemma LowWordIsRead(word: bv64, value: bv64)
    ensures KvmReadWord(KvmWriteWord(word, Low16, value), Low16) == Truncate(value, Low16)
  {
  }

  lemma MaskTwice(value: bv64)
    ensures U32(U32(value)) == U32(value)
  {
  }

  lemma WideIsRead(word: bv64, value: bv64)
    ensures KvmReadWord(KvmWriteWord(word, Low32, value), Low32) == Truncate(value, Low32)
    ensures KvmReadWord(KvmWriteWord(word, Full, value), Full) == Truncate(value, Full)
  {
    hide SetLowByte, SetHighByte, SetLowWord, U8, U16, U32;
    MaskTwice(value);
  }

  /** A write is read back through the same part. */
  lemma WrittenIsRead(word: bv64, part: Part, value: bv64)
    ensures KvmReadWord(KvmWriteWord(word, part, value), part) == Truncate(value, part)
  {
    hide KvmReadWord, KvmWriteWord, Truncate;
    match part
    case Low8 => LowByteIsRead(word, value);
    case High8 => HighByteIsRead(word, value);
    case Low16 => LowWordIsRead(word, value);
    case _ => WideIsRead(word, value);
  }

  /** The bits outside a part's reach are those of the register before. */
  predicate KeepsRest(word: bv64, part: Part, written: bv64) {
    written & !Reach(part) == word & !Reach(part)
  }

  lemma LowByteKeepsRest(word: bv64, value: bv8)
    ensures KeepsRest(word, Low8, SetLowByte(word, value))
  {
  }

  lemma HighByteKeepsRest(word: bv64, value: bv8)
    ensures KeepsRest(word, High8, SetHighByte(word, value))
  {
  }

  lemma LowWordKeepsRest(word: bv64, value: bv16)
    ensures KeepsRest(word, Low16, SetLowWord(word, value))
  {
  }

  lemma NothingOutside(word: bv64, written: bv64)
    ensures KeepsRest(word, Low32, written) && KeepsRest(word, Full, written)
  {
  }

  /** Intel SDM volume 1, section 3.4.1.1: 8 and 16-bit writes preserve the other bits, 32-bit writes zero-extend. */
  lemma WritesStayInReach(word: bv64, part: Part, value: bv64)
    ensures KeepsRest(word, part, KvmWriteWord(word, part, value))
    ensures part.Low32? ==> KvmWriteWord(word, part, value) == U32(value)
  {
    hide SetLowByte, SetHighByte, SetLowWord, KeepsRest, U8, U16, U32;
    LowByteKeepsRest(word, U8(value));
    HighByteKeepsRest(word, U8(value));
    LowWordKeepsRest(word, U16(value));
    NothingOutside(word, KvmWriteWord(word, part, value));
  }

  lemma BytesApart(word: bv64, value: bv64)
    ensures KvmReadWord(KvmWriteWord(word, Low8, value), High8) == KvmReadWord(word, High8)
    ensures KvmReadWord(KvmWriteWord(word, High8, value), Low8) == KvmReadWord(word, Low8)
  {
  }

  lemma OtherAliasKept(file: KvmFile, a: Alias, b: Alias, value: bv64)
    requires !Overlap(a, b)
    ensures KvmRead(KvmWrite(file, a, value), b) == KvmRead(file, b)
  {
    BytesApart(file[a.gpr], value);
  }

  /**
   * Over any sequence of writes, an alias reads as the last value written through
   * it, as long as no overlapping alias is written after that.
   */
  lemma {:induction false} LastWriteIsRead(file: KvmFile, alias: Alias, value: bv64, later: seq<Write>)
    requires forall w | w in later :: !Overlap(w.alias, alias)
    ensures KvmRead(KvmWrites(KvmWrite(file, alias, value), later), alias) == Truncate(value, alias.part)
  {
    WrittenIsRead(file[alias.gpr], alias.part, value);
    WritesElsewhere(KvmWrite(file, alias, value), alias, later);
  }

  lemma {:induction false} WritesElsewhere(file: KvmFile, alias: Alias, writes: seq<Write>)
    requires forall w | w in writes :: !Overlap(w.alias, alias)
    ensures KvmRead(KvmWrites(file, writes), alias) == KvmRead(file, alias)
    decreases |writes|
  {
    if writes != [] {
      OtherAliasKept(file, writes[0].alias, alias, writes[0].value);
      WritesElsewhere(KvmWrite(file, writes[0].alias, writes[0].value), alias, writes[1..]);
    }
  }

  /** Conversely a write through an overlapping alias can always change what the alias reads. */
  lemma OverlapIsVisible(a: Alias, b: Alias)
    requires a.Valid() && b.Valid()
    ensures Overlap(a, b) <==> exists value, file: KvmFile :: KvmRead(KvmWrite(file, a, value), b) != KvmRead(file, b)
  {
    if Overlap(a, b) {
      var ones: KvmFile := seq<bv64>(16, i => 0xFFFF_FFFF_FFFF_FFFF);
      assert KvmRead(KvmWrite(ones, a, 0), b) != KvmRead(ones, b);
    } else {
      forall value, file: KvmFile
        ensures KvmRead(KvmWrite(file, a, value), b) == KvmRead(file, b)
      {
        OtherAliasKept(file, a, b, value);
      }
    }
  }

  // ----- HAXM: overlaid fields ---------------------------------------------------------

  /** The eight bytes of a register's union, lowest first. */
  type Cell = c: seq<bv8> | |c| == 8 witness seq(8, i => 0)

  /** A word from its two lowest bytes and the rest. */
  function Join(b0: bv8, b1: bv8, upper: bv64): bv64 {
    (b0 as bv64) | ((b1 as bv64) << 8) | upper
  }

  function Word(c: Cell): bv64 {
    Join(c[0], c[1], UpperBytes(c))
  }

  function UpperBytes(c: Cell): bv64 {
    ((c[2] as bv64) << 16) | ((c[3] as bv64) << 24)
    | ((c[4] as bv64) << 32) | ((c[5] as bv64) << 40) | ((c[6] as bv64) << 48) | ((c[7] as bv64) << 56)
  }

  lemma UpperBytesShifted(c: Cell)
    ensures UpperBytes(c) & 0xFFFF == 0
  {
  }

  function Bytes(w: bv64): Cell {
    [U8(w), U8(w >> 8), U8(w >> 16), U8(w >> 24), U8(w >> 32), U8(w >> 40), U8(w >> 48), U8(w >> 56)]
  }

  lemma BytesWord(w: bv64)
    ensures Word(Bytes(w)) == w
  {
  }

  /** The 16-bit field overlays the two lowest bytes. */
  function SetWordField(c: Cell, value: bv16): Cell {
    c[0 := (value & 0xFF) as bv8][1 := (value >> 8) as bv8]
  }

  /** Reads: byte fields for rax to rbx, a cast of the 16-bit field for rsp to rdi, a cast of the word above. */
  function HaxmReadCell(c: Cell, alias: Alias): bv64 {
    if alias.gpr < 4 && alias.part.Low8? then c[0] as bv64
    else if alias.part.High8? then c[1] as bv64
    else if alias.gpr < 8 && alias.part.Low8? then c[0] as bv64
    else if alias.gpr < 8 && alias.part.Low16? then Join(c[0], c[1], 0)
    else KvmReadWord(Word(c), alias.part)
  }

  /** Writes: SPL, BPL, SIL and DIL go through the 16-bit field. */
  function HaxmWriteCell(c: Cell, alias: Alias, value: bv64): Cell {
    match alias.part
    case Low8 =>
      if alias.gpr < 4 then c[0 := U8(value)]
      else if alias.gpr < 8 then SetWordField(c, U8(value) as bv16)
      else Bytes(SetLowByte(Word(c), U8(value)))
    case High8 => c[1 := U8(value)]
    case Low16 =>
      if alias.gpr < 8 then SetWordField(c, U16(value)) else Bytes(SetLowWord(Word(c), U16(value)))
    case Low32 => Bytes(U32(value))
    case Full => Bytes(value)
  }

  /** The aliases whose HAXM write is not the KVM write: SPL, BPL, SIL and DIL. */
  predicate IsStackOrIndexByte(alias: Alias) {
    alias.part.Low8? && 4 <= alias.gpr < 8
  }

  lemma LowestByteOf(b0: bv8, b1: bv8, upper: bv64)
    requires upper & 0xFFFF == 0
    ensures U8(Join(b0, b1, upper)) == b0
  {
  }

  lemma SecondByteOf(b0: bv8, b1: bv8, upper: bv64)
    requires upper & 0xFFFF == 0
    ensures U8(Join(b0, b1, upper) >> 8) == b1
  {
  }

  lemma LowWordOf(b0: bv8, b1: bv8, upper: bv64)
    requires upper & 0xFFFF == 0
    ensures U16(Join(b0, b1, upper)) as bv64 == Join(b0, b1, 0)
  {
  }

  lemma LowBytePart(c: Cell)
    ensures KvmReadWord(Word(c), Low8) == c[0] as bv64
  {
    hide U8, U16, UpperBytes, Join;
    UpperBytesShifted(c);
    LowestByteOf(c[0], c[1], UpperBytes(c));
  }

  lemma HighBytePart(c: Cell)
    ensures KvmReadWord(Word(c), High8) == c[1] as bv64
  {
    hide U8, U16, UpperBytes, Join;
    UpperBytesShifted(c);
    SecondByteOf(c[0], c[1], UpperBytes(c));
  }

  lemma LowWordPart(c: Cell)
    ensures KvmReadWord(Word(c), Low16) == Join(c[0], c[1], 0)
  {
    hide U8, U16, UpperBytes, Join;
    UpperBytesShifted(c);
    LowWordOf(c[0], c[1], UpperBytes(c));
  }

  lemma CellReadsAgree(c: Cell, alias: Alias)
    requires alias.Valid()
    ensures HaxmReadCell(c, alias) == KvmReadWord(Word(c), alias.part)
  {
    hide Word, Join, KvmReadWord;
    LowBytePart(c);
    HighBytePart(c);
    LowWordPart(c);
  }

  lemma UpperBytesKept(c: Cell, b0: bv8, b1: bv8)
    ensures UpperBytes(c[0 := b0][1 := b1]) == UpperBytes(c)
    ensures Word(c[0 := b0][1 := b1]) == Join(b0, b1, UpperBytes(c)) && Word(c) == Join(c[0], c[1], UpperBytes(c))
  {
  }

  lemma LowByteWrite(b0: bv8, b1: bv8, upper: bv64, value: bv8)
    requires upper & 0xFFFF == 0
    ensures SetLowByte(Join(b0, b1, upper), value) == Join(value, b1, upper)
  {
  }

  lemma HighByteWrite(b0: bv8, b1: bv8, upper: bv64, value: bv8)
    requires upper & 0xFFFF == 0
    ensures SetHighByte(Join(b0, b1, upper), value) == Join(b0, value, upper)
  {
  }

  lemma ByteFieldWrites(c: Cell, value: bv8)
    ensures Word(c[0 := value]) == SetLowByte(Word(c), value)
    ensures Word(c[1 := value]) == SetHighByte(Word(c), value)
  {
    hide Word, UpperBytes, SetLowByte, SetHighByte, Join;
    UpperBytesShifted(c);
    LowByteWrite(c[0], c[1], UpperBytes(c), value);
    HighByteWrite(c[0], c[1], UpperBytes(c), value);
    UpperBytesKept(c, value, c[1]);
    UpperBytesKept(c, c[0], value);
    assert c[0 := value][1 := c[1]] == c[0 := value] && c[0 := c[0]][1 := value] == c[1 := value];
  }

  lemma WordWrite(b0: bv8, b1: bv8, upper: bv64, value: bv16)
    requires upper & 0xFFFF == 0
    ensures SetLowWord(Join(b0, b1, upper), value) == Join((value & 0xFF) as bv8, (value >> 8) as bv8, upper)
  {
  }

  lemma WordFieldWrite(c: Cell, value: bv16)
    ensures Word(SetWordField(c, value)) == SetLowWord(Word(c), value)
  {
    hide Word, UpperBytes, SetLowWord, Join;
    UpperBytesShifted(c);
    WordWrite(c[0], c[1], UpperBytes(c), value);
    UpperBytesKept(c, (value & 0xFF) as bv8, (value >> 8) as bv8);
  }

  lemma ByteAsWord(b0: bv8, b1: bv8, upper: bv64, value: bv8)
    requires upper & 0xFFFF == 0
    ensures SetLowWord(Join(b0, b1, upper), value as bv16) == SetLowByte(Join(b0, b1, upper), value) <==> b1 == 0
  {
  }

  lemma ByteThroughWordField(c: Cell, value: bv8)
    ensures Word(SetWordField(c, value as bv16)) == SetLowByte(Word(c), value) <==> c[1] == 0
  {
    hide Word, UpperBytes, SetWordField, SetLowByte, SetLowWord, Join;
    WordFieldWrite(c, value as bv16);
    UpperBytesShifted(c);
    UpperBytesKept(c, c[0], c[1]);
    ByteAsWord(c[0], c[1], UpperBytes(c), value);
  }

  /**
   * One HAXM write does to the register what the KVM write does, except exactly
   * when it is an SPL, BPL, SIL or DIL write to a register whose bits 15:8 are set.
   */
  lemma CellWritesAgreeIff(c: Cell, alias: Alias, value: bv64)
    requires alias.Valid()
    ensures Word(HaxmWriteCell(c, alias, value)) == KvmWriteWord(Word(c), alias.part, value) <==>
            !IsStackOrIndexByte(alias) || c[1] == 0
  {
    hide Word, Bytes, SetLowByte, SetHighByte, SetLowWord, U8, U16, U32, SetWordField;
    ByteFieldWrites(c, U8(value));
    match alias.part
    case Low8 =>
      ByteThroughWordField(c, U8(value));
      BytesWord(SetLowByte(Word(c), U8(value)));
    case High8 =>
    case Low16 =>
      WordFieldWrite(c, U16(value));
      BytesWord(SetLowWord(Word(c), U16(value)));
    case Low32 => BytesWord(U32(value));
    case Full => BytesWord(value);
  }

  /** Departure: a HAXM write of 0 to SPL also clears bits 15:8, where the KVM write keeps them. */
  lemma SplClearsSecondByte(c: Cell)
    requires c[1] == 1
    ensures HaxmWriteCell(c, Alias(4, Low8), 0)[1] == 0
    ensures Word(HaxmWriteCell(c, Alias(4, Low8), 0)) != KvmWriteWord(Word(c), Low8, 0)
  {
    hide Word, KvmWriteWord;
    CellWritesAgreeIff(c, Alias(4, Low8), 0);
  }

  type HaxmFile = f: seq<Cell> | |f| == 16 witness seq(16, i => Bytes(0))

  function HaxmRead(file: HaxmFile, alias: Alias): bv64 {
    HaxmReadCell(file[alias.gpr], alias)
  }

  function HaxmWrite(file: HaxmFile, alias: Alias, value: bv64): HaxmFile {
    file[alias.gpr := HaxmWriteCell(file[alias.gpr], alias, value)]
  }

  function HaxmWrites(file: HaxmFile, writes: seq<Write>): HaxmFile
    decreases |writes|
  {
    if writes == [] then file else HaxmWrites(HaxmWrite(file, writes[0].alias, writes[0].value), writes[1..])
  }

  function Words(file: HaxmFile): KvmFile {
    seq(16, i requires 0 <= i < 16 => Word(file[i]))
  }

  /** The two backends agree on every alias after any writes that avoid SPL, BPL, SIL and DIL. */
  lemma {:induction false} BackendsAgree(file: HaxmFile, writes: seq<Write>)
    requires forall w | w in writes :: w.alias.Valid() && !IsStackOrIndexByte(w.alias)
    ensures Words(HaxmWrites(file, writes)) == KvmWrites(Words(file), writes)
    ensures forall alias: Alias | alias.Valid() ::
              HaxmRead(HaxmWrites(file, writes), alias) == KvmRead(KvmWrites(Words(file), writes), alias)
    decreases |writes|
  {
    hide Word, HaxmReadCell, KvmReadWord, HaxmWriteCell, KvmWriteWord;
    if writes == [] {
      forall alias: Alias | alias.Valid()
        ensures HaxmRead(file, alias) == KvmRead(Words(file), alias)
      {
        CellReadsAgree(file[alias.gpr], alias);
      }
    } else {
      var w := writes[0];
      CellWritesAgreeIff(file[w.alias.gpr], w.alias, w.value);
      assert Words(HaxmWrite(file, w.alias, w.value)) == KvmWrite(Words(file), w.alias, w.value);
      BackendsAgree(HaxmWrite(file, w.alias, w.value), writes[1..]);
    }
  }
}
