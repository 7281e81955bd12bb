/**
 * The floating point areas of the two backends: byte buffers in which the x87 and
 * MMX registers overlay each other, and their different layouts.
 */
module FpuRegisters {
  import opened Bits
  import opened ByteBuffers
  import opened Registers

  /** The sixteen bytes of one register. */
  type Block = b: seq<byte> | |b| == 16 witness seq(16, i => 0)
  const ZERO_BLOCK: Block := seq(16, i => 0)

  type EightBlocks = s: seq<Block> | |s| == 8 witness seq<Block>(8, i => ZERO_BLOCK)
  type SixteenBlocks = s: seq<Block> | |s| == 16 witness seq<Block>(16, i => ZERO_BLOCK)

  // ----- One register ------------------------------------------------------------------

  function LoadQuad(b: Block, at: nat): u64
    requires at <= 8
  {
    assert Pow2(64) == 0x1_0000_0000_0000_0000 by { Powers(); }
    Load(b, at, 8)
  }

  function StoreQuad(b: Block, at: nat, value: u64): Block
    requires at <= 8
  {
    Store(b, at, 8, value)
  }

  /** The ten bytes of an x87 register: significand, then sign and exponent. */
  function LoadST(b: Block): RegValue {
    assert Pow2(16) == 0x1_0000 by { Powers(); }
    RegValue(LoadQuad(b, 0), Load(b, 8, 2), 0)
  }

  function StoreST(b: Block, v: RegValue): Block {
    Store(StoreQuad(b, 0, v.low), 8, 2, v.middle % 0x1_0000)
  }

  /** An MMX register is the eight bytes of the significand. */
  function LoadMM(b: Block): RegValue {
    RegValue(LoadQuad(b, 0), 0, 0)
  }

  function StoreMM(b: Block, v: RegValue): Block {
    StoreQuad(b, 0, v.low)
  }

  function LoadXMM(b: Block): RegValue {
    RegValue(LoadQuad(b, 0), LoadQuad(b, 8), 0)
  }

  function StoreXMM(b: Block, v: RegValue): Block {
    StoreQuad(StoreQuad(b, 0, v.low), 8, v.middle)
  }

  lemma QuadStored(b: Block, at: nat, value: u64)
    requires at == 0 || at == 8
    ensures LoadQuad(StoreQuad(b, at, value), at) == value
  {
    hide Load, Store, Pow2;
    Powers();
    LoadStored(b, at, 8, value);
  }

  lemma QuadElsewhere(b: Block, at: nat, value: u64)
    requires at == 0 || at == 8
    ensures LoadQuad(StoreQuad(b, at, value), 8 - at) == LoadQuad(b, 8 - at)
    ensures at == 0 ==> Load(StoreQuad(b, at, value), 8, 2) == Load(b, 8, 2)
  {
    hide Load, Store, Pow2;
    LoadElsewhere(b, at, 8, value, 8 - at, 8);
    if at == 0 {
      LoadElsewhere(b, 0, 8, value, 8, 2);
    }
  }

  /** Which bytes the stores change, and to what. */
  lemma StoredBytes(b: Block, v: RegValue)
    ensures StoreST(b, v) == ToBytes(v.low, 8) + ToBytes(v.middle % 0x1_0000, 2) + b[10..]
    ensures StoreMM(b, v) == ToBytes(v.low, 8) + b[8..]
    ensures StoreXMM(b, v) == ToBytes(v.low, 8) + ToBytes(v.middle, 8)
  {
    hide ToBytes;
  }

  /** An ST value is read back, cut to ten bytes, and its significand shows as the MM value. */
  lemma StoredST(b: Block, v: RegValue)
    ensures LoadST(StoreST(b, v)) == RegValue(v.low, v.middle % 0x1_0000, 0)
    ensures LoadMM(StoreST(b, v)) == RegValue(v.low, 0, 0)
  {
    hide Load, Store;
    var quad := StoreQuad(b, 0, v.low);
    QuadStored(b, 0, v.low);
    Powers();
    LoadStored(quad, 8, 2, v.middle % 0x1_0000);
    LoadElsewhere(quad, 8, 2, v.middle % 0x1_0000, 0, 8);
  }

  /** An MM value is read back and shows as the significand of the ST value, which keeps its sign and exponent. */
  lemma StoredMM(b: Block, v: RegValue)
    ensures LoadMM(StoreMM(b, v)) == RegValue(v.low, 0, 0)
    ensures LoadST(StoreMM(b, v)) == LoadST(b).(low := v.low)
  {
    hide Load, Store;
    QuadStored(b, 0, v.low);
    QuadElsewhere(b, 0, v.low);
  }

  lemma StoredXMM(b: Block, v: RegValue)
    ensures LoadXMM(StoreXMM(b, v)) == RegValue(v.low, v.middle, 0)
  {
    hide LoadQuad, StoreQuad;
    QuadStored(b, 0, v.low);
    QuadStored(StoreQuad(b, 0, v.low), 8, v.middle);
    QuadElsewhere(StoreQuad(b, 0, v.low), 8, v.middle);
  }

  // ----- KVM ---------------------------------------------------------------------------

  datatype KvmFpu = KvmFpu(fpr: EightBlocks, fcw: u16, fsw: u16, ftwx: u8, lastOpcode: u16, lastIp: u64, lastDp: u64,
                           xmm: SixteenBlocks, mxcsr: u32)

  function KvmReadFpu(f: KvmFpu, reg: Reg): RegValue
    requires IsFpu(reg)
  {
    match reg
    case ST(i) => LoadST(f.fpr[i])
    case MM(i) => LoadMM(f.fpr[i])
    case XMM(i) => LoadXMM(f.xmm[i])
  }

  function KvmWriteFpu(f: KvmFpu, reg: Reg, v: RegValue): KvmFpu
    requires IsFpu(reg)
  {
    match reg
    case ST(i) => f.(fpr := f.fpr[i := StoreST(f.fpr[i], v)])
    case MM(i) => f.(fpr := f.fpr[i := StoreMM(f.fpr[i], v)])
    case XMM(i) => f.(xmm := f.xmm[i := StoreXMM(f.xmm[i], v)])
  }

  /** The code and data segment are missing, and the tag word has eight bits. */
  function KvmFpuControl(f: KvmFpu): FpuControl {
    FpuControl(f.fcw, f.fsw, f.ftwx, f.lastOpcode, 0, f.lastIp, 0, f.lastDp)
  }

  function KvmSetFpuControl(f: KvmFpu, c: FpuControl): KvmFpu {
    f.(fcw := c.cw, fsw := c.sw, ftwx := c.tw % 0x100, lastOpcode := c.op, lastIp := c.rip, lastDp := c.rdp)
  }

  lemma KvmFpuReadBack(f: KvmFpu, reg: Reg, v: RegValue)
    requires IsFpu(reg)
    ensures KvmReadFpu(KvmWriteFpu(f, reg, v), reg) == Member(reg, v)
  {
    hide LoadST, LoadMM, LoadXMM, StoreST, StoreMM, StoreXMM;
    match reg
    case ST(i) => StoredST(f.fpr[i], v);
    case MM(i) => StoredMM(f.fpr[i], v);
    case XMM(i) => StoredXMM(f.xmm[i], v);
  }

  lemma KvmFpuOtherKept(f: KvmFpu, a: Reg, b: Reg, v: RegValue)
    requires IsFpu(a) && IsFpu(b) && !Share(a, b)
    ensures KvmReadFpu(KvmWriteFpu(f, a, v), b) == KvmReadFpu(f, b)
  {
    hide LoadST, LoadMM, LoadXMM, StoreST, StoreMM, StoreXMM;
  }

  /** An MM write changes the significand of the ST register under it, an ST write the MM register. */
  lemma KvmOverlay(f: KvmFpu, i: nat, v: RegValue)
    requires i < 8
    ensures KvmReadFpu(KvmWriteFpu(f, MM(i), v), ST(i)) == KvmReadFpu(f, ST(i)).(low := v.low)
    ensures KvmReadFpu(KvmWriteFpu(f, ST(i), v), MM(i)) == RegValue(v.low, 0, 0)
  {
    hide LoadST, LoadMM, StoreST, StoreMM;
    StoredMM(f.fpr[i], v);
    StoredST(f.fpr[i], v);
  }

  /** Setting the control values leaves MXCSR and every register, writing a register leaves control values and MXCSR. */
  lemma KvmFpuFrames(f: KvmFpu, c: FpuControl, reg: Reg, v: RegValue)
    requires IsFpu(reg)
    ensures var f' := KvmSetFpuControl(f, c);
            f'.mxcsr == f.mxcsr && KvmReadFpu(f', reg) == KvmReadFpu(f, reg)
    ensures var f' := KvmWriteFpu(f, reg, v);
            f'.mxcsr == f.mxcsr && KvmFpuControl(f') == KvmFpuControl(f)
  {
    hide LoadST, LoadMM, LoadXMM, StoreST, StoreMM, StoreXMM;
  }

  /** KVM keeps FPU control values whose tag word fits eight bits and whose segments are zero. */
  lemma KvmFpuControlReadBackIff(f: KvmFpu, c: FpuControl)
    ensures KvmFpuControl(KvmSetFpuControl(f, c)) == c <==> c.tw < 0x100 && c.cs == 0 && c.ds == 0
  {
    if c.tw < 0x100 {
      ModSmall(c.tw, 0x100);
    }
  }

  // ----- HAXM --------------------------------------------------------------------------

  /** XMM0 to XMM7 and XMM8 to XMM15 are two arrays. */
  datatype HaxmFpu = HaxmFpu(fcw: u16, fsw: u16, ftw: u8, fop: u16, fip: u32, fcs: u16, fdp: u32, fds: u16,
                             mxcsr: u32, mxcsrMask: u32, stMm: EightBlocks, mmx1: EightBlocks, mmx2: EightBlocks)

  function HaxmReadFpu(f: HaxmFpu, reg: Reg): RegValue
    requires IsFpu(reg)
  {
    match reg
    case ST(i) => LoadST(f.stMm[i])
    case MM(i) => LoadMM(f.stMm[i])
    case XMM(i) => if i < 8 then LoadXMM(f.mmx1[i]) else LoadXMM(f.mmx2[i - 8])
  }

  function HaxmWriteFpu(f: HaxmFpu, reg: Reg, v: RegValue): HaxmFpu
    requires IsFpu(reg)
  {
    match reg
    case ST(i) => f.(stMm := f.stMm[i := StoreST(f.stMm[i], v)])
    case MM(i) => f.(stMm := f.stMm[i := StoreMM(f.stMm[i], v)])
    case XMM(i) =>
      if i < 8 then f.(mmx1 := f.mmx1[i := StoreXMM(f.mmx1[i], v)])
      else f.(mmx2 := f.mmx2[i - 8 := StoreXMM(f.mmx2[i - 8], v)])
  }

  /** The instruction and data pointers have 32 bits. */
  function HaxmFpuControl(f: HaxmFpu): FpuControl {
    FpuControl(f.fcw, f.fsw, f.ftw, f.fop, f.fcs, f.fip, f.fds, f.fdp)
  }

  function HaxmSetFpuControl(f: HaxmFpu, c: FpuControl): HaxmFpu {
    f.(fcw := c.cw, fsw := c.sw, ftw := c.tw % 0x100, fop := c.op, fcs := c.cs, fip := c.rip % 0x1_0000_0000,
       fds := c.ds, fdp := c.rdp % 0x1_0000_0000)
  }

  lemma HaxmFpuFrames(f: HaxmFpu, c: FpuControl, reg: Reg, v: RegValue)
    requires IsFpu(reg)
    ensures var f' := HaxmSetFpuControl(f, c);
            f'.mxcsr == f.mxcsr && f'.mxcsrMask == f.mxcsrMask && HaxmReadFpu(f', reg) == HaxmReadFpu(f, reg)
    ensures var f' := HaxmWriteFpu(f, reg, v);
            f'.mxcsr == f.mxcsr && f'.mxcsrMask == f.mxcsrMask && HaxmFpuControl(f') == HaxmFpuControl(f)
  {
    hide LoadST, LoadMM, LoadXMM, StoreST, StoreMM, StoreXMM;
  }

  /** HAXM keeps FPU control values whose tag word fits eight bits and whose pointers fit 32. */
  lemma HaxmFpuControlReadBackIff(f: HaxmFpu, c: FpuControl)
    ensures HaxmFpuControl(HaxmSetFpuControl(f, c)) == c <==>
            c.tw < 0x100 && c.rip < 0x1_0000_0000 && c.rdp < 0x1_0000_0000
  {
    if c.tw < 0x100 && c.rip < 0x1_0000_0000 && c.rdp < 0x1_0000_0000 {
      ModSmall(c.tw, 0x100);
      ModSmall(c.rip, 0x1_0000_0000);
      ModSmall(c.rdp, 0x1_0000_0000);
    }
  }

  /** The HAXM area in the KVM layout. */
  function KvmFpuOf(f: HaxmFpu): KvmFpu {
    KvmFpu(f.stMm, f.fcw, f.fsw, f.ftw, f.fop, f.fip, f.fdp, f.mmx1 + f.mmx2, f.mxcsr)
  }

  /** Setting the control values does the same in both layouts exactly when the pointers fit 32 bits. */
  lemma FpuControlsAgreeIff(f: HaxmFpu, c: FpuControl)
    ensures KvmFpuOf(HaxmSetFpuControl(f, c)) == KvmSetFpuControl(KvmFpuOf(f), c) <==>
            c.rip < 0x1_0000_0000 && c.rdp < 0x1_0000_0000
  {
  }

  /** Both layouts read every register alike. */
  lemma FpuReadsAgree(f: HaxmFpu, reg: Reg)
    requires IsFpu(reg)
    ensures HaxmReadFpu(f, reg) == KvmReadFpu(KvmFpuOf(f), reg)
  {
    hide LoadST, LoadMM, LoadXMM;
  }

  /** And they write every register alike. */
  lemma FpuWritesAgree(f: HaxmFpu, reg: Reg, v: RegValue)
    requires IsFpu(reg)
    ensures KvmFpuOf(HaxmWriteFpu(f, reg, v)) == KvmWriteFpu(KvmFpuOf(f), reg, v)
  {
    hide LoadST, LoadMM, LoadXMM, StoreST, StoreMM, StoreXMM;
    if reg.XMM? {
      assert (f.mmx1 + f.mmx2)[reg.index] == if reg.index < 8 then f.mmx1[reg.index] else f.mmx2[reg.index - 8];
      assert KvmFpuOf(HaxmWriteFpu(f, reg, v)).xmm == KvmWriteFpu(KvmFpuOf(f), reg, v).xmm;
    }
  }
}
