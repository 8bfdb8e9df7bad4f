/** What the operands of an x86 instruction stand for, from the bits of ModRM, SIB, REX, displacement and
    immediates: tables 2-1 to 2-3 and section 2.2.1 of volume 2 of the Intel 64 and IA-32 manual, under an
    arbitrary register file. */
module OperandEncoding {
  import opened Bytes
  import opened Modular
  import opened Patching
  import opened Itab
  import opened OpcodeTables
  import opened DecoderState
  import opened Encoding

  // ----- The register file -------------------------------------------------------------------

  /** The general registers and the address of the next instruction. */
  datatype Regs = Regs(gpr: nat -> nat, rip: nat)

  /** What a named register reads. The byte registers are AL, CL, DL, BL, AH, CH, DH, BH, SPL, BPL, SIL, DIL and
      R8B to R15B. */
  function ValueOf(r: Register, regs: Regs): nat {
    match r
    case Gpr64(n) => regs.gpr(n) % 0x1_0000_0000_0000_0000
    case Gpr32(n) => regs.gpr(n) % 0x1_0000_0000
    case Gpr16(n) => regs.gpr(n) % 0x1_0000
    case Gpr8(n) =>
      if n < 4 then regs.gpr(n) % 0x100 else if n < 8 then regs.gpr(n - 4) / 0x100 % 0x100 else regs.gpr(n - 4) % 0x100
    case Rip => regs.rip
    case _ => 0
  }

  /** The address that a memory operand names: base, scaled index and signed displacement, as wide as addresses
      are. */
  function AddressNamed(op: Operand, adr: ModeBits, regs: Regs): nat {
    (ValueOf(op.base, regs) + ValueOf(op.index, regs) * (if op.scale == 0 then 1 else op.scale)
     + (if op.offset == 0 then 0 else Signed(op.lval, op.offset))) % Range(adr)
  }

  // ----- The bytes of one instruction --------------------------------------------------------------

  /** An instruction whose ModRM byte, if it has one, is at `at`: its sizes and the REX bits that count. */
  datatype Frame = Frame(rem: seq<byte>, at: nat, mode: ModeBits, opr: ModeBits, adr: ModeBits, anyRex: bool,
                         r: bool, x: bool, b: bool)

  /** The sizes and REX bits that the mode, the prefixes left over, and a table row's flags give: a REX bit
      counts if the row says so. */
  function FrameOf(rem: seq<byte>, at: nat, mode: ModeBits, g: Given, flags: PrefixBits): Frame {
    Frame(rem, at, mode,
          if mode == 64 && !(BitW(g.rex) && flags.rexw) && !g.opr && flags.def64 then 64
          else OperandSize(mode, BitW(g.rex) && flags.rexw, g.opr),
          AddressSize(mode, g.adr), g.rex != 0, BitR(g.rex) && flags.rexr, BitX(g.rex) && flags.rexx,
          BitB(g.rex) && flags.rexb)
  }

  predicate FrameOk(f: Frame) {
    f.mode != 64 ==> !f.anyRex && !f.r && !f.x && !f.b
  }

  function BytesAt(rem: seq<byte>, at: nat, n: nat): (r: seq<byte>)
    ensures |r| == n
    decreases n
  {
    if n == 0 then [] else [ByteOrZero(rem, at)] + BytesAt(rem, at + 1, n - 1)
  }

  function NumberAt(rem: seq<byte>, at: nat, n: nat): nat { Value(BytesAt(rem, at, n)) }

  function ModrmByte(f: Frame): byte { ByteOrZero(f.rem, f.at) }

  function SibByte(f: Frame): byte { ByteOrZero(f.rem, f.at + 1) }

  /** The number of a register: three bits of an instruction and one of REX. */
  function Extended(bits: nat, rex: bool): nat { if rex then bits + 8 else bits }

  function RegNumber(f: Frame): nat { Extended(ModrmByte(f) / 8 % 8, f.r) }

  function RmNumber(f: Frame): nat { Extended(ModrmByte(f) % 8, f.b) }

  // ----- Addresses -------------------------------------------------------------------------------------

  predicate HasSib(f: Frame) { f.adr != 16 && ModrmByte(f) % 8 == 4 }

  /** The bytes of the displacement. */
  function DispBytes(f: Frame): nat {
    var mod, rm := ModrmByte(f) / 64, ModrmByte(f) % 8;
    if mod == 1 then 1
    else if f.adr == 16 then (if mod == 2 || rm == 6 then 2 else 0)
    else if mod == 2 || rm == 5 || (rm == 4 && SibByte(f) % 8 == 5) then 4
    else 0
  }

  /** The bytes of an address behind the ModRM byte. */
  function AddressBytes(f: Frame): nat { (if HasSib(f) then 1 else 0) + DispBytes(f) }

  function Disp(f: Frame): int {
    var n := DispBytes(f);
    if n == 0 then 0 else Signed(NumberAt(f.rem, f.at + (if HasSib(f) then 2 else 1), n), 8 * n)
  }

  /** A general register as wide as addresses are. */
  function Gpr(f: Frame, n: nat, regs: Regs): nat { regs.gpr(n) % Range(f.adr) }

  /** 16-bit addressing. */
  function Pair16(f: Frame, regs: Regs): nat {
    match ModrmByte(f) % 8
    case 0 => Gpr(f, 3, regs) + Gpr(f, 6, regs)
    case 1 => Gpr(f, 3, regs) + Gpr(f, 7, regs)
    case 2 => Gpr(f, 5, regs) + Gpr(f, 6, regs)
    case 3 => Gpr(f, 5, regs) + Gpr(f, 7, regs)
    case 4 => Gpr(f, 6, regs)
    case 5 => Gpr(f, 7, regs)
    case 6 => if ModrmByte(f) / 64 == 0 then 0 else Gpr(f, 5, regs)
    case _ => Gpr(f, 3, regs)
  }

  /** Without a SIB byte: r/m 5 with mod 0 is relative to the next instruction in 64-bit mode, whatever the
      address size, and has no base in the others. */
  function Single(f: Frame, regs: Regs): nat {
    if ModrmByte(f) / 64 == 0 && ModrmByte(f) % 8 == 5 then (if f.mode == 64 then regs.rip else 0)
    else Gpr(f, RmNumber(f), regs)
  }

  /** With a SIB byte: register 4 is no index, and base 5 with mod 0 is none, whatever REX says. */
  function SibBase(f: Frame, regs: Regs): nat {
    if SibByte(f) % 8 == 5 && ModrmByte(f) / 64 == 0 then 0 else Gpr(f, Extended(SibByte(f) % 8, f.b), regs)
  }

  function SibIndex(f: Frame, regs: Regs): nat {
    var n := Extended(SibByte(f) / 8 % 8, f.x);
    if n == 4 then 0
    else
      match SibByte(f) / 64
      case 0 => Gpr(f, n, regs)
      case 1 => 2 * Gpr(f, n, regs)
      case 2 => 4 * Gpr(f, n, regs)
      case _ => 8 * Gpr(f, n, regs)
  }

  /** The address that a memory form of ModRM stands for. */
  function AddressEncoded(f: Frame, regs: Regs): nat {
    ((if f.adr == 16 then Pair16(f, regs)
      else if HasSib(f) then SibBase(f, regs) + SibIndex(f, regs)
      else Single(f, regs)) + Disp(f)) % Range(f.adr)
  }

  /** The forms that the decoder gets right: with 32-bit addresses it takes the one relative to the next
      instruction for one without a base, and the forms without a base for R13D if REX.B is set. */
  predicate Addressable(f: Frame) {
    !(f.adr == 32 && ModrmByte(f) / 64 == 0 &&
      ((ModrmByte(f) % 8 == 5 && f.mode == 64) || (ModrmByte(f) % 8 == 4 && SibByte(f) % 8 == 5 && f.b)))
  }

  ghost predicate Addresses(f: Frame, op: Operand) {
    forall regs: Regs :: AddressNamed(op, f.adr, regs) == AddressEncoded(f, regs)
  }

  // ----- Operands ----------------------------------------------------------------------------------------

  datatype File = GprFile | MmxFile | XmmFile | CrFile | DrFile | SegFile

  /** The register file that r/m selects from when it names a register, */
  function RmFile(code: OpCode): Option<File> {
    match code
    case OpE => Some(GprFile)
    case OpM => Some(GprFile)
    case OpMR => Some(GprFile)
    case OpF => Some(GprFile)
    case OpR => Some(GprFile)
    case OpN => Some(MmxFile)
    case OpQ => Some(MmxFile)
    case OpU => Some(XmmFile)
    case OpW => Some(XmmFile)
    case OpMU => Some(XmmFile)
    case _ => None
  }

  /** and the one that the reg field selects from. */
  function RegFile(code: OpCode): Option<File> {
    match code
    case OpG => Some(GprFile)
    case OpP => Some(MmxFile)
    case OpV => Some(XmmFile)
    case OpS => Some(SegFile)
    case OpC => Some(CrFile)
    case OpD => Some(DrFile)
    case _ => None
  }

  predicate Inline(code: OpCode) { code == OpI || code == OpSI || code == OpJ || code == OpA || code == OpO }

  /** The widths of the operand dictionary. */
  function Width(f: Frame, size: nat): nat {
    if size == SZ_V then f.opr
    else if size == SZ_Z then (if f.opr == 16 then 16 else 32)
    else if size == SZ_Y then (if f.opr == 16 then 32 else f.opr)
    else if size == SZ_RDQ then (if f.mode == 64 then 64 else 32)
    else size
  }

  /** An operand with one size in memory and another in a register has the first in its high byte. */
  function RmSize(spec: OperandSpec, memory: bool): nat {
    if spec.code == OpMR || spec.code == OpMU then (if memory then spec.size / 0x100 % 0x100 else spec.size % 0x100)
    else spec.size
  }

  /** What the n-th general register of a width reads: of one byte, registers 4 to 7 are the second bytes of 0 to
      3 unless there is a REX prefix. */
  function GprEncoded(f: Frame, n: nat, width: nat, regs: Regs): nat {
    if width == 64 then regs.gpr(n) % 0x1_0000_0000_0000_0000
    else if width == 32 then regs.gpr(n) % 0x1_0000_0000
    else if width == 16 then regs.gpr(n) % 0x1_0000
    else if width == 8 then
      if n < 4 || f.anyRex then regs.gpr(n) % 0x100 else regs.gpr(n - 4) / 0x100 % 0x100
    else 0
  }

  ghost predicate IsRegister(f: Frame, op: Operand, file: File, n: nat, width: nat) {
    && op.ty == RegOp && op.size == width % 0x100
    && match file
       case GprFile => forall regs: Regs :: ValueOf(op.base, regs) == GprEncoded(f, n, width, regs)
       case MmxFile => op.base == Mmx(n % 8)
       case XmmFile => op.base == Xmm(n)
       case CrFile => op.base == Cr(n)
       case DrFile => op.base == Dr(n)
       case SegFile => n % 8 <= 5 && op.base == Seg(n % 8)
  }

  /** A memory form names the address that is encoded if and only if the decoder can tell. */
  ghost predicate IsMemory(f: Frame, op: Operand, width: nat) {
    op.ty == MemOp && op.size == width % 0x100 && (Addresses(f, op) <==> Addressable(f))
  }

  ghost predicate IsRm(f: Frame, spec: OperandSpec, op: Operand, file: File) {
    var memory := ModrmByte(f) < 0xC0;
    var width := Width(f, RmSize(spec, memory));
    && (spec.code == OpM || spec.code == OpF ==> memory)
    && (spec.code == OpN || spec.code == OpU || spec.code == OpR ==> !memory)
    && if memory then IsMemory(f, op, width) else IsRegister(f, op, file, RmNumber(f), width)
  }

  predicate Readable(width: nat) { width == 8 || width == 16 || width == 32 || width == 64 }

  predicate IsNumber(f: Frame, op: Operand, ty: OperandType, width: nat, at: nat) {
    op.ty == ty && op.size == width && (Readable(width) ==> op.lval == NumberAt(f.rem, at, width / 8))
  }

  /** A far pointer: the offset comes first. */
  predicate IsFar(f: Frame, op: Operand, at: nat) {
    if f.opr == 16
    then op.ty == PtrOp && op.size == 32 && op.lval == NumberAt(f.rem, at, 2) && op.ptrSeg == NumberAt(f.rem, at + 2, 2)
    else op.ty == PtrOp && op.size == 48 && op.lval == NumberAt(f.rem, at, 4) && op.ptrSeg == NumberAt(f.rem, at + 4, 2)
  }

  /** An address given whole. */
  predicate IsOffset(f: Frame, op: Operand, width: nat, at: nat) {
    && op.ty == MemOp && op.size == width % 0x100 && op.base == NoReg && op.index == NoReg && op.offset == f.adr
    && op.lval == NumberAt(f.rem, at, f.adr / 8)
  }

  /** The operand is what its description says; `at` is where its own bytes start. */
  ghost predicate Is(f: Frame, spec: OperandSpec, op: Operand, at: nat) {
    var width := Width(f, spec.size);
    match RmFile(spec.code)
    case Some(file) => IsRm(f, spec, op, file)
    case None =>
      match RegFile(spec.code)
      case Some(file) => IsRegister(f, op, file, RegNumber(f), width)
      case None =>
        match spec.code
        case OpI => IsNumber(f, op, ImmOp, width % 0x100, at)
        case OpSI => IsNumber(f, op, ImmOp, width % 0x100, at)
        case OpJ => IsNumber(f, op, JimmOp, width % 0x100, at)
        case OpA => IsFar(f, op, at)
        case OpO => IsOffset(f, op, width, at)
        case OpI1 => op.ty == ConstOp && op.lval == 1
        case OpI3 => op.ty == ConstOp && op.lval == 3
        case OpRn(n) => IsRegister(f, op, GprFile, Extended(n, f.b), width)
        case Fixed(n) => IsRegister(f, op, GprFile, n, width)
        case SegReg(n) => op.ty == RegOp && op.base == Seg(n) && op.size == 16 && (f.mode == 64 ==> n == 4 || n == 5)
        case OpST(n) => op.ty == RegOp && op.base == St(n) && op.size == 80
        case _ => op.ty == NoOperand
  }

  // ----- Where operands are ---------------------------------------------------------------------------------

  /** The bytes of an operand that is read in line. */
  function InlineBytes(f: Frame, spec: OperandSpec): nat {
    var width := Width(f, spec.size) % 0x100;
    if spec.code == OpA then (if f.opr == 16 then 4 else 6)
    else if spec.code == OpO then f.adr / 8
    else if Readable(width) then width / 8
    else 0
  }

  /** How far an instruction has been read: whether the ModRM byte has, and up to where. */
  datatype Read = Read(modrm: bool, upTo: nat)

  /** ModRM comes first, then SIB and displacement, then the operands in line, in their order. */
  function ReadOn(f: Frame, spec: OperandSpec, from: Read): Read {
    if RmFile(spec.code).Some? then Read(true, f.at + 1 + (if ModrmByte(f) < 0xC0 then AddressBytes(f) else 0))
    else if RegFile(spec.code).Some? then Read(true, if from.modrm then from.upTo else f.at + 1)
    else if Inline(spec.code) then from.(upTo := from.upTo + InlineBytes(f, spec))
    else from
  }

  /** Descriptions as the operand dictionary has them, */
  predicate InDictionary(spec: OperandSpec) {
    match spec.code
    case OpRn(n) => n < 8
    case Fixed(n) => n < 3
    case SegReg(n) => n < 6
    case OpST(n) => n < 8
    case _ => true
  }

  predicate FromModrm(spec: OperandSpec) { RmFile(spec.code).Some? || RegFile(spec.code).Some? }

  /** and rows as the table has them: no operand that ModRM gives behind one in line, and one r/m operand. */
  predicate RowInOrder(e: Entry) {
    && InDictionary(e.operand1) && InDictionary(e.operand2) && InDictionary(e.operand3)
    && (Inline(e.operand1.code) ==> !FromModrm(e.operand2) && !FromModrm(e.operand3))
    && (Inline(e.operand2.code) ==> !FromModrm(e.operand3))
    && (RmFile(e.operand1.code).Some? ==> RmFile(e.operand2.code).None? && RmFile(e.operand3.code).None?)
    && (RmFile(e.operand2.code).Some? ==> RmFile(e.operand3.code).None?)
  }

  predicate MemoryRow(f: Frame, e: Entry) {
    ModrmByte(f) < 0xC0 &&
    (RmFile(e.operand1.code).Some? || RmFile(e.operand2.code).Some? || RmFile(e.operand3.code).Some?)
  }

  /** The three operands of a row, one after the other. */
  ghost predicate AllAre(f: Frame, e: Entry, insn: Instr, from: Read) {
    var second := ReadOn(f, e.operand1, from);
    var third := ReadOn(f, e.operand2, second);
    && Is(f, e.operand1, insn.op0, from.upTo) && Is(f, e.operand2, insn.op1, second.upTo)
    && Is(f, e.operand3, insn.op2, third.upTo)
  }

  /** Where the last one ends. */
  function ReadAll(f: Frame, e: Entry, from: Read): Read {
    ReadOn(f, e.operand3, ReadOn(f, e.operand2, ReadOn(f, e.operand1, from)))
  }

  /** The r/m operand of a row alone. */
  ghost predicate RmAre(f: Frame, e: Entry, insn: Instr) {
    && (RmFile(e.operand1.code).Some? ==> IsRm(f, e.operand1, insn.op0, RmFile(e.operand1.code).value))
    && (RmFile(e.operand2.code).Some? ==> IsRm(f, e.operand2, insn.op1, RmFile(e.operand2.code).value))
    && (RmFile(e.operand3.code).Some? ==> IsRm(f, e.operand3, insn.op2, RmFile(e.operand3.code).value))
  }
}
