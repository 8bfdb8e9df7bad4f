/** Decoding of the operands an instruction table row asks for (decode.c). */
module Operands {
  import opened Bytes
  import opened Itab
  import opened DecoderState

  /** resolve_operand_size. */
  function SizeIn(disMode: DisMode, oprMode: nat, size: nat): (r: nat)
    ensures size < 256 && oprMode <= 64 ==> r < 256
  {
    if size == SZ_V then oprMode
    else if size == SZ_Z then (if oprMode == 16 then 16 else 32)
    else if size == SZ_Y then (if oprMode == 16 then 32 else oprMode)
    else if size == SZ_RDQ then (if disMode == 64 then 64 else 32)
    else size
  }

  function ResolveSize(cfg: Config, c: Core, size: nat): (r: nat)
    ensures size < 256 && c.oprMode <= 64 ==> r < 256
  {
    SizeIn(cfg.mode, c.oprMode, size)
  }

  /** Mx_mem_size and Mx_reg_size. */
  function MemSize(size: nat): nat { (size / 256) % 256 }
  function RegSize(size: nat): nat { size % 256 }

  // ----- Registers -----------------------------------------------------------

  datatype RegClass = GprClass | MmxClass | XmmClass | CrClass | DbClass | SegClass

  /** decode_gpr. */
  function DecodeGpr(mode: DisMode, rex: byte, size: nat, rm: nat): Register {
    if size == 64 then Gpr64(rm)
    else if size == 32 then Gpr32(rm)
    else if size == 16 then Gpr16(rm)
    else if size == 8 then
      if mode == 64 && rex != 0 && rm >= 4 then Gpr8(rm + 4) else Gpr8(rm)
    else NoReg
  }

  function PlainReg(mode: DisMode, rex: byte, cls: RegClass, num: nat, size: nat): Register {
    match cls
    case GprClass => DecodeGpr(mode, rex, size, num)
    case MmxClass => Mmx(num % 8)
    case XmmClass => Xmm(num)
    case CrClass => Cr(num)
    case DbClass => Dr(num)
    case SegClass => Seg(num % 8)
  }

  /** decode_reg. */
  function DecodeReg(cfg: Config, c: Core, op: Operand, cls: RegClass, num: nat, size: nat): (Core, Operand) {
    var sz := ResolveSize(cfg, c, size);
    if cls == SegClass && num % 8 > 5 then (Fail(c), op)
    else (c, op.(ty := RegOp, base := PlainReg(cfg.mode, c.insn.rex, cls, num, sz), size := sz % 256))
  }

  /** decode_modrm_reg. */
  function DecodeModrmReg(rem: seq<byte>, cfg: Config, c: Core, op: Operand, cls: RegClass, size: nat):
    (r: (Core, Operand))
    ensures Advances(rem, c, r.0, 0) && SamePrefixes(c, r.0)
  {
    var (c1, m) := Modrm(rem, c);
    DecodeReg(cfg, c1, op, cls, RexR(c1.insn.rex) * 8 + RegOf(m), size)
  }

  // ----- Immediates, displacements and far pointers ---------------------------

  predicate Width(size: nat) { size == 8 || size == 16 || size == 32 || size == 64 }

  /** decode_imm. */
  function DecodeImm(rem: seq<byte>, cfg: Config, c: Core, op: Operand, size: nat): (r: (Core, Operand))
    ensures Advances(rem, c, r.0, 8) && SamePrefixes(c, r.0)
  {
    var sz := ResolveSize(cfg, c, size) % 256;
    var op1 := op.(size := sz, ty := ImmOp);
    if Width(sz) then
      var (c1, v) := Uint(rem, c, sz / 8);
      (c1, op1.(lval := v))
    else (c, op1)
  }

  /** decode_mem_disp. */
  function DecodeDisp(rem: seq<byte>, c: Core, op: Operand, size: nat): (r: (Core, Operand))
    ensures Advances(rem, c, r.0, 8) && SamePrefixes(c, r.0)
    ensures size <= 32 ==> Advances(rem, c, r.0, 4)
  {
    if Width(size) then
      var (c1, v) := Uint(rem, c, size / 8);
      (c1, op.(offset := size, lval := v))
    else (c, op)
  }

  /** decode_a: seg16:off16 or seg16:off32. */
  function DecodeFar(rem: seq<byte>, c: Core, op: Operand): (r: (Core, Operand))
    ensures Advances(rem, c, r.0, 6) && SamePrefixes(c, r.0)
  {
    var n := if c.oprMode == 16 then 2 else 4;
    var (c1, off) := Uint(rem, c, n);
    var (c2, seg) := Uint(rem, c1, 2);
    (c2, op.(ty := PtrOp, size := if c.oprMode == 16 then 32 else 48, lval := off, ptrSeg := seg))
  }

  // ----- Memory operands ------------------------------------------------------

  /** Where a memory operand points: registers, scale and the width of its displacement. */
  datatype Address = Address(base: Register, index: Register, scale: nat, offset: nat)

  function ScaleOf(sib: byte): nat {
    var s := sib / 64;
    if s == 0 then 0 else if s == 1 then 2 else if s == 2 then 4 else 8
  }

  /** 64-bit addressing; `sib` is looked at only when rm asks for it. */
  function Address64(mod: nat, rm: nat, sib: byte, rex: byte): Address {
    var ripRelative := mod == 0 && rm % 8 == 5;
    var offset := if mod == 1 then 8 else if mod == 2 || ripRelative then 32 else 0;
    if rm % 8 != 4 then Address(if ripRelative then Rip else Gpr64(rm), NoReg, 0, offset)
    else
      var index, base := Gpr64((sib / 8) % 8 + 8 * RexX(rex)), Gpr64(sib % 8 + 8 * RexB(rex));
      var bare := base == Gpr64(5) || base == Gpr64(13);
      Address(if bare && mod == 0 then NoReg else base,
              if index == Gpr64(4) then NoReg else index,
              if index == Gpr64(4) then 0 else ScaleOf(sib),
              if bare then (if mod == 1 then 8 else 32) else offset)
  }

  /** 32-bit addressing. */
  function Address32(mod: nat, rm: nat, sib: byte, rex: byte): Address {
    var absolute := mod == 0 && rm == 5;
    var offset := if mod == 1 then 8 else if mod == 2 || absolute then 32 else 0;
    if rm % 8 != 4 then Address(if absolute then NoReg else Gpr32(rm), NoReg, 0, offset)
    else
      var index, base := Gpr32((sib / 8) % 8 + 8 * RexX(rex)), Gpr32(sib % 8 + 8 * RexB(rex));
      var bare := base == Gpr32(5);
      Address(if bare && mod == 0 then NoReg else base,
              if index == Gpr32(4) then NoReg else index,
              if index == Gpr32(4) then 0 else ScaleOf(sib),
              if bare then (if mod == 1 then 8 else 32) else offset)
  }

  function Base16(rm: nat): Register {
    if rm == 0 || rm == 1 || rm == 7 then Gpr16(3)
    else if rm == 4 then Gpr16(6)
    else if rm == 5 then Gpr16(7)
    else Gpr16(5)
  }

  function Index16(rm: nat): Register {
    if rm == 0 || rm == 2 then Gpr16(6) else if rm == 1 || rm == 3 then Gpr16(7) else NoReg
  }

  /** 16-bit addressing. */
  function Address16(mod: nat, rm: nat): Address {
    var absolute := mod == 0 && rm == 6;
    Address(if absolute then NoReg else Base16(rm % 8), Index16(rm % 8), 0,
            if mod == 1 then 8 else if mod == 2 || absolute then 16 else 0)
  }

  function AddressOf(c: Core, mod: nat, rm: nat): (r: Address)
    requires mod <= 2
    ensures r.offset <= 32
  {
    if c.adrMode == 64 then Address64(mod, rm, c.curr, c.insn.rex)
    else if c.adrMode == 32 then Address32(mod, rm, c.curr, c.insn.rex)
    else Address16(mod, rm)
  }

  predicate NeedsSib(c: Core, rm: nat) {
    (c.adrMode == 64 || c.adrMode == 32) && rm % 8 == 4
  }

  /** The memory half of decode_modrm_rm, once mod and rm are known. */
  function DecodeMem(rem: seq<byte>, cfg: Config, c: Core, op: Operand, mod: nat, rm: nat, size: nat):
    (r: (Core, Operand))
    requires mod <= 2
    ensures Advances(rem, c, r.0, 5) && SamePrefixes(c, r.0)
  {
    var c1 := if NeedsSib(c, rm) then Next(rem, c).0 else c;
    var a := AddressOf(c1, mod, rm);
    var op1 := op.(ty := MemOp, size := ResolveSize(cfg, c, size) % 256,
                   base := a.base, index := a.index, scale := a.scale);
    if a.offset != 0 then DecodeDisp(rem, c1, op1, a.offset) else (c1, op1)
  }

  /** decode_modrm_rm. */
  function DecodeModrmRm(rem: seq<byte>, cfg: Config, c: Core, op: Operand, cls: RegClass, size: nat):
    (r: (Core, Operand))
    ensures Advances(rem, c, r.0, 5) && SamePrefixes(c, r.0)
  {
    var (c1, m) := Modrm(rem, c);
    var rm := RexB(c1.insn.rex) * 8 + RmOf(m);
    if ModOf(m) == 3 then DecodeReg(cfg, c1, op, cls, rm, size)
    else DecodeMem(rem, cfg, c1, op, ModOf(m), rm, size)
  }

  /** decode_moffset. */
  function DecodeMoffset(rem: seq<byte>, cfg: Config, c: Core, op: Operand, size: nat): (r: (Core, Operand))
    ensures Advances(rem, c, r.0, 8) && SamePrefixes(c, r.0)
  {
    DecodeDisp(rem, c, op.(ty := MemOp, size := ResolveSize(cfg, c, size) % 256), c.adrMode)
  }

  // ----- One operand ------------------------------------------------------------

  /** An r/m operand; `want3` constrains modrm.mod, and a violation is an error but the
      operand is still decoded. */
  function DecodeRmChecked(rem: seq<byte>, cfg: Config, c: Core, op: Operand, cls: RegClass, size: nat,
                           want3: bool): (r: (Core, Operand))
    ensures Advances(rem, c, r.0, 5) && SamePrefixes(c, r.0)
  {
    var (c1, m) := Modrm(rem, c);
    var c2 := if (ModOf(m) == 3) == want3 then c1 else Fail(c1);
    DecodeModrmRm(rem, cfg, c2, op, cls, size)
  }

  /** A register-or-memory operand whose size depends on which of the two it is. */
  function DecodeRmSized(rem: seq<byte>, cfg: Config, c: Core, op: Operand, cls: RegClass, size: nat):
    (r: (Core, Operand))
    ensures Advances(rem, c, r.0, 5) && SamePrefixes(c, r.0)
  {
    var (c1, m) := Modrm(rem, c);
    DecodeModrmRm(rem, cfg, c1, op, cls, if ModOf(m) == 3 then RegSize(size) else MemSize(size))
  }

  function DecodeSegReg(cfg: Config, c: Core, op: Operand, n: nat): (Core, Operand) {
    (if cfg.mode == 64 && n != 4 && n != 5 then Fail(c) else c,
     op.(ty := RegOp, base := Seg(n), size := 16))
  }

  predicate IsRmCode(code: OpCode) {
    code == OpMR || code == OpF || code == OpM || code == OpE || code == OpN || code == OpQ || code == OpU
    || code == OpW || code == OpMU || code == OpR
  }

  predicate IsRegCode(code: OpCode) {
    code == OpG || code == OpP || code == OpV || code == OpS || code == OpC || code == OpD
  }

  predicate IsInlineCode(code: OpCode) {
    code == OpA || code == OpSI || code == OpI || code == OpO || code == OpJ
  }

  /** The register file that the r/m field selects from when it names a register. */
  function RmClass(code: OpCode): RegClass {
    if code == OpN || code == OpQ then MmxClass
    else if code == OpU || code == OpW || code == OpMU then XmmClass
    else GprClass
  }

  /** The register file that the reg field selects from. */
  function RegFieldClass(code: OpCode): RegClass {
    if code == OpP then MmxClass
    else if code == OpV then XmmClass
    else if code == OpS then SegClass
    else if code == OpC then CrClass
    else if code == OpD then DbClass
    else GprClass
  }

  /** A far pointer in memory makes a far branch. */
  function MarkFar(c: Core, code: OpCode): Core { if code == OpF then c.(insn := c.insn.(brFar := true)) else c }

  /** Operands given by the r/m field. */
  function DecodeRmOperand(rem: seq<byte>, cfg: Config, c: Core, op: Operand, spec: OperandSpec): (r: (Core, Operand))
    requires op.ty == NoOperand
    ensures Advances(rem, c, r.0, 8) && SamePrefixes(MarkFar(c, spec.code), r.0)
  {
    var code, cls := spec.code, RmClass(spec.code);
    if code == OpMR || code == OpMU then DecodeRmSized(rem, cfg, c, op, cls, spec.size)
    else if code == OpE || code == OpQ || code == OpW then DecodeModrmRm(rem, cfg, c, op, cls, spec.size)
    else
      DecodeRmChecked(rem, cfg, MarkFar(c, code), op, cls, spec.size, code != OpF && code != OpM)
  }

  /** Operands read straight from the input. */
  function DecodeInlineOperand(rem: seq<byte>, cfg: Config, c: Core, op: Operand,
                               spec: OperandSpec): (r: (Core, Operand))
    ensures Advances(rem, c, r.0, 8) && SamePrefixes(c, r.0)
  {
    if spec.code == OpA then DecodeFar(rem, c, op)
    else if spec.code == OpO then DecodeMoffset(rem, cfg, c, op, spec.size)
    else
      var (c1, op1) := DecodeImm(rem, cfg, c, op, spec.size);
      (c1, if spec.code == OpJ then op1.(ty := JimmOp) else op1)
  }

  /** Operands that the opcode itself says. */
  function DecodeImpliedOperand(cfg: Config, c: Core, op: Operand, spec: OperandSpec): (r: (Core, Operand))
    ensures Advances([], c, r.0, 0) && SamePrefixes(c, r.0)
  {
    match spec.code
    case OpI1 => (c, op.(ty := ConstOp, lval := 1))
    case OpI3 => (c, op.(ty := ConstOp, lval := 3))
    case OpRn(n) => DecodeReg(cfg, c, op, GprClass, RexB(c.insn.rex) * 8 + n, spec.size)
    case Fixed(n) => DecodeReg(cfg, c, op, GprClass, n, spec.size)
    case SegReg(n) => DecodeSegReg(cfg, c, op, n)
    case OpST(n) => (c, op.(ty := RegOp, base := St(n), size := 80))
    case _ => (c, op)
  }

  /** decode_operand. */
  function DecodeOperand(rem: seq<byte>, cfg: Config, c: Core, spec: OperandSpec): (r: (Core, Operand))
    ensures Advances(rem, c, r.0, 8) && SamePrefixes(MarkFar(c, spec.code), r.0)
  {
    var op := CLEARED.(code := spec.code);
    if IsRmCode(spec.code) then DecodeRmOperand(rem, cfg, c, op, spec)
    else if IsRegCode(spec.code) then DecodeModrmReg(rem, cfg, c, op, RegFieldClass(spec.code), spec.size)
    else if IsInlineCode(spec.code) then DecodeInlineOperand(rem, cfg, c, op, spec)
    else DecodeImpliedOperand(cfg, c, op, spec)
  }

  /** decode_operands. */
  function DecodeOperands(rem: seq<byte>, cfg: Config, c: Core, e: Entry): (r: Core)
    ensures Advances(rem, c, r, 24)
  {
    var (c0, op0) := DecodeOperand(rem, cfg, c, e.operand1);
    DecodeLastTwo(rem, cfg, c0.(insn := c0.insn.(op0 := op0)), e)
  }

  function DecodeLastTwo(rem: seq<byte>, cfg: Config, c: Core, e: Entry): (r: Core)
    ensures Advances(rem, c, r, 16)
  {
    var (c1, op1) := DecodeOperand(rem, cfg, c, e.operand2);
    var (c2, op2) := DecodeOperand(rem, cfg, c1.(insn := c1.insn.(op1 := op1)), e.operand3);
    c2.(insn := c2.insn.(op2 := op2))
  }

  // ----- Only the bytes that are read matter -----------------------------------

  lemma ImmLocal(rem: seq<byte>, rem': seq<byte>, cfg: Config, c: Core, op: Operand, size: nat)
    requires var d := DecodeImm(rem, cfg, c, op, size).0; !d.end && Agree(rem, rem', d.ctr)
    ensures DecodeImm(rem', cfg, c, op, size) == DecodeImm(rem, cfg, c, op, size)
  {
    var sz := ResolveSize(cfg, c, size) % 256;
    if Width(sz) { UintLocal(rem, rem', c, sz / 8); }
  }

  lemma DispLocal(rem: seq<byte>, rem': seq<byte>, c: Core, op: Operand, size: nat)
    requires var d := DecodeDisp(rem, c, op, size).0; !d.end && Agree(rem, rem', d.ctr)
    ensures DecodeDisp(rem', c, op, size) == DecodeDisp(rem, c, op, size)
  {
    if Width(size) { UintLocal(rem, rem', c, size / 8); }
  }

  lemma FarLocal(rem: seq<byte>, rem': seq<byte>, c: Core, op: Operand)
    requires var d := DecodeFar(rem, c, op).0; !d.end && Agree(rem, rem', d.ctr)
    ensures DecodeFar(rem', c, op) == DecodeFar(rem, c, op)
  {
    var n := if c.oprMode == 16 then 2 else 4;
    var c1 := Uint(rem, c, n).0;
    AgreeLess(rem, rem', DecodeFar(rem, c, op).0.ctr, c1.ctr);
    UintLocal(rem, rem', c, n);
    UintLocal(rem, rem', c1, 2);
  }

  lemma MemLocal(rem: seq<byte>, rem': seq<byte>, cfg: Config, c: Core, op: Operand, mod: nat, rm: nat, size: nat)
    requires mod <= 2
    requires var d := DecodeMem(rem, cfg, c, op, mod, rm, size).0; !d.end && Agree(rem, rem', d.ctr)
    ensures DecodeMem(rem', cfg, c, op, mod, rm, size) == DecodeMem(rem, cfg, c, op, mod, rm, size)
  {
    var d := DecodeMem(rem, cfg, c, op, mod, rm, size).0;
    var c1 := if NeedsSib(c, rm) then Next(rem, c).0 else c;
    AgreeLess(rem, rem', d.ctr, c1.ctr);
    if NeedsSib(c, rm) { NextLocal(rem, rem', c); }
    var a := AddressOf(c1, mod, rm);
    if a.offset != 0 {
      DispLocal(rem, rem', c1, op.(ty := MemOp, size := ResolveSize(cfg, c, size) % 256,
                                   base := a.base, index := a.index, scale := a.scale), a.offset);
    }
  }

  /** Any operand that starts with a look at the ModRM byte. */
  lemma ModrmFirst(rem: seq<byte>, rem': seq<byte>, c: Core, n: nat)
    requires Modrm(rem, c).0.ctr <= n && !Modrm(rem, c).0.end && Agree(rem, rem', n)
    ensures Modrm(rem', c) == Modrm(rem, c)
  {
    AgreeLess(rem, rem', n, Modrm(rem, c).0.ctr);
    ModrmLocal(rem, rem', c);
  }

  lemma ModrmRmLocal(rem: seq<byte>, rem': seq<byte>, cfg: Config, c: Core, op: Operand, cls: RegClass, size: nat)
    requires var d := DecodeModrmRm(rem, cfg, c, op, cls, size).0; !d.end && Agree(rem, rem', d.ctr)
    ensures DecodeModrmRm(rem', cfg, c, op, cls, size) == DecodeModrmRm(rem, cfg, c, op, cls, size)
  {
    var (c1, m) := Modrm(rem, c);
    var rm := RexB(c1.insn.rex) * 8 + RmOf(m);
    if ModOf(m) == 3 {
      ModrmFirst(rem, rem', c, c1.ctr);
    } else {
      var d := DecodeMem(rem, cfg, c1, op, ModOf(m), rm, size).0;
      MemLocal(rem, rem', cfg, c1, op, ModOf(m), rm, size);
      ModrmFirst(rem, rem', c, d.ctr);
    }
  }

  lemma RmCheckedLocal(rem: seq<byte>, rem': seq<byte>, cfg: Config, c: Core, op: Operand, cls: RegClass, size: nat,
                       want3: bool)
    requires var d := DecodeRmChecked(rem, cfg, c, op, cls, size, want3).0; !d.end && Agree(rem, rem', d.ctr)
    ensures DecodeRmChecked(rem', cfg, c, op, cls, size, want3) == DecodeRmChecked(rem, cfg, c, op, cls, size, want3)
  {
    var (c1, m) := Modrm(rem, c);
    ModrmFirst(rem, rem', c, DecodeRmChecked(rem, cfg, c, op, cls, size, want3).0.ctr);
    ModrmRmLocal(rem, rem', cfg, if (ModOf(m) == 3) == want3 then c1 else Fail(c1), op, cls, size);
  }

  lemma RmSizedLocal(rem: seq<byte>, rem': seq<byte>, cfg: Config, c: Core, op: Operand, cls: RegClass, size: nat)
    requires var d := DecodeRmSized(rem, cfg, c, op, cls, size).0; !d.end && Agree(rem, rem', d.ctr)
    ensures DecodeRmSized(rem', cfg, c, op, cls, size) == DecodeRmSized(rem, cfg, c, op, cls, size)
  {
    var (c1, m) := Modrm(rem, c);
    ModrmFirst(rem, rem', c, DecodeRmSized(rem, cfg, c, op, cls, size).0.ctr);
    ModrmRmLocal(rem, rem', cfg, c1, op, cls, if ModOf(m) == 3 then RegSize(size) else MemSize(size));
  }

  lemma RmOperandLocal(rem: seq<byte>, rem': seq<byte>, cfg: Config, c: Core, op: Operand, spec: OperandSpec)
    requires op.ty == NoOperand
    requires var d := DecodeRmOperand(rem, cfg, c, op, spec).0; !d.end && Agree(rem, rem', d.ctr)
    ensures DecodeRmOperand(rem', cfg, c, op, spec) == DecodeRmOperand(rem, cfg, c, op, spec)
  {
    var code, cls := spec.code, RmClass(spec.code);
    if code == OpMR || code == OpMU {
      RmSizedLocal(rem, rem', cfg, c, op, cls, spec.size);
    } else if code == OpE || code == OpQ || code == OpW {
      ModrmRmLocal(rem, rem', cfg, c, op, cls, spec.size);
    } else {
      var c0 := if code == OpF then c.(insn := c.insn.(brFar := true)) else c;
      RmCheckedLocal(rem, rem', cfg, c0, op, cls, spec.size, code != OpF && code != OpM);
    }
  }

  lemma InlineOperandLocal(rem: seq<byte>, rem': seq<byte>, cfg: Config, c: Core, op: Operand, spec: OperandSpec)
    requires var d := DecodeInlineOperand(rem, cfg, c, op, spec).0; !d.end && Agree(rem, rem', d.ctr)
    ensures DecodeInlineOperand(rem', cfg, c, op, spec) == DecodeInlineOperand(rem, cfg, c, op, spec)
  {
    if spec.code == OpA {
      FarLocal(rem, rem', c, op);
    } else if spec.code == OpO {
      DispLocal(rem, rem', c, op.(ty := MemOp, size := ResolveSize(cfg, c, spec.size) % 256), c.adrMode);
    } else {
      ImmLocal(rem, rem', cfg, c, op, spec.size);
    }
  }

  lemma ModrmRegLocal(rem: seq<byte>, rem': seq<byte>, cfg: Config, c: Core, op: Operand, cls: RegClass, size: nat)
    requires var d := DecodeModrmReg(rem, cfg, c, op, cls, size).0; !d.end && Agree(rem, rem', d.ctr)
    ensures DecodeModrmReg(rem', cfg, c, op, cls, size) == DecodeModrmReg(rem, cfg, c, op, cls, size)
  {
    ModrmLocal(rem, rem', c);
  }

  lemma OperandLocal(rem: seq<byte>, rem': seq<byte>, cfg: Config, c: Core, spec: OperandSpec)
    requires var d := DecodeOperand(rem, cfg, c, spec).0; !d.end && Agree(rem, rem', d.ctr)
    ensures DecodeOperand(rem', cfg, c, spec) == DecodeOperand(rem, cfg, c, spec)
  {
    var op := CLEARED.(code := spec.code);
    if IsRmCode(spec.code) {
      RmOperandLocal(rem, rem', cfg, c, op, spec);
    } else if IsRegCode(spec.code) {
      ModrmRegLocal(rem, rem', cfg, c, op, RegFieldClass(spec.code), spec.size);
    } else if IsInlineCode(spec.code) {
      InlineOperandLocal(rem, rem', cfg, c, op, spec);
    }
  }

  lemma OperandsLocal(rem: seq<byte>, rem': seq<byte>, cfg: Config, c: Core, e: Entry)
    requires var d := DecodeOperands(rem, cfg, c, e); !d.end && Agree(rem, rem', d.ctr)
    ensures DecodeOperands(rem', cfg, c, e) == DecodeOperands(rem, cfg, c, e)
  {
    var n := DecodeOperands(rem, cfg, c, e).ctr;
    var (c0, op0) := DecodeOperand(rem, cfg, c, e.operand1);
    AgreeLess(rem, rem', n, c0.ctr);
    OperandLocal(rem, rem', cfg, c, e.operand1);
    var (c1, op1) := DecodeOperand(rem, cfg, c0.(insn := c0.insn.(op0 := op0)), e.operand2);
    AgreeLess(rem, rem', n, c1.ctr);
    OperandLocal(rem, rem', cfg, c0.(insn := c0.insn.(op0 := op0)), e.operand2);
    OperandLocal(rem, rem', cfg, c1.(insn := c1.insn.(op1 := op1)), e.operand3);
  }
}
