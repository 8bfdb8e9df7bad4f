/** The values the syntax printers compute from decoded operands (syn.c), and that decoding
    establishes what those printers assert. */
module Printer {
  import opened Bytes
  import opened Itab
  import opened OpcodeTrie
  import opened OpcodeTables
  import opened TableGenerator
  import opened DecoderState
  import opened Operands
  import opened Decoder
  import opened DecoderReading
  import opened Modular

  // ----- What the printers assert --------------------------------------------------

  /** ud_syn_print_imm: a known width, and in the sign-extended branch 8 or 32 bits. */
  predicate ImmPrintable(op: Operand, oprMode: nat) {
    && Width(op.size) && op.lval < Range(op.size)
    && (op.code == OpSI && op.size != oprMode ==> (op.size == 8 || op.size == 32) && op.size < oprMode)
  }

  /** ud_syn_rel_target: a relative offset of at most 32 bits. */
  predicate RelPrintable(op: Operand) {
    (op.size == 8 || op.size == 16 || op.size == 32) && op.lval < Range(op.size)
  }

  /** ud_syn_print_mem_disp, which is called for a non-zero displacement width. */
  predicate DispPrintable(op: Operand) {
    if op.base == NoReg && op.index == NoReg
    then op.scale == 0 && (op.offset == 16 || op.offset == 32 || op.offset == 64)
    else op.offset == 8 || op.offset == 16 || op.offset == 32
  }

  predicate Printable(op: Operand, oprMode: nat) {
    && (op.ty == ImmOp ==> ImmPrintable(op, oprMode))
    && (op.ty == JimmOp ==> RelPrintable(op))
    && (op.ty == MemOp && op.offset != 0 ==> DispPrintable(op))
  }

  // ----- What the printers compute ---------------------------------------------------

  /** ud_syn_rel_target. */
  function RelTarget(pc: nat, oprMode: nat, op: Operand): nat
    requires RelPrintable(op)
  {
    ((pc + Signed(op.lval, op.size)) % Range(64)) % Range(oprMode)
  }

  /** It is the sum of the program counter and the signed offset, of one, two or four bytes, modulo the operand
      size. */
  lemma RelTargetExact(pc: nat, oprMode: nat, op: Operand)
    requires RelPrintable(op) && (oprMode == 16 || oprMode == 32 || oprMode == 64)
    ensures var d := if op.size == 8 then (if op.lval < 0x80 then op.lval else op.lval - 0x100)
                     else if op.size == 16 then (if op.lval < 0x8000 then op.lval else op.lval - 0x1_0000)
                     else if op.lval < 0x8000_0000 then op.lval else op.lval - 0x1_0000_0000;
            var m := if oprMode == 16 then 0x1_0000 else if oprMode == 32 then 0x1_0000_0000
                     else 0x1_0000_0000_0000_0000;
            RelTarget(pc, oprMode, op) == (pc + d) % m
  {
    TruncateTwice(pc + Signed(op.lval, op.size), oprMode);
  }

  /** The value ud_syn_print_imm prints. */
  function ImmValue(op: Operand, oprMode: nat): nat
    requires ImmPrintable(op, oprMode)
  {
    if op.code == OpSI && op.size != oprMode then
      var v := Signed(op.lval, op.size) % Range(64);
      if oprMode < 64 then v % Range(oprMode) else v
    else op.lval
  }

  /** Truncating to 64 bits first makes no difference. */
  lemma TruncateTwice(x: int, bits: nat)
    ensures (x % Range(64)) % Range(bits) == x % Range(bits)
  {
    var k := if bits == 8 then 0x100_0000_0000_0000
             else if bits == 16 then 0x1_0000_0000_0000
             else if bits == 32 then 0x1_0000_0000
             else 1;
    assert Range(bits) * k == Range(64);
    ModMod(x, Range(bits), k);
  }

  /** A sign-extended immediate prints as the one value below 2^oprMode that is congruent to it. */
  lemma ImmExtends(op: Operand, oprMode: nat)
    requires ImmPrintable(op, oprMode) && op.code == OpSI && op.size != oprMode && oprMode <= 64
    ensures ImmValue(op, oprMode) < Range(oprMode)
    ensures ImmValue(op, oprMode) == Signed(op.lval, op.size) % Range(oprMode)
  {
    TruncateTwice(Signed(op.lval, op.size), oprMode);
  }

  /** Any other immediate prints as it is. */
  lemma ImmPlain(op: Operand, oprMode: nat)
    requires ImmPrintable(op, oprMode) && (op.code != OpSI || op.size == oprMode)
    ensures ImmValue(op, oprMode) == op.lval
  {
  }

  // ----- Decoding establishes it --------------------------------------------------------

  /** Sizes that the operand dictionary gives to immediates and relative offsets. */
  predicate WfSpec(spec: OperandSpec) {
    && (spec.code == OpSI ==> spec.size == SZ_B || spec.size == SZ_Z || spec.size == SZ_V)
    && (spec.code == OpI ==> spec.size == SZ_B || spec.size == SZ_W || spec.size == SZ_Z || spec.size == SZ_V)
    && (spec.code == OpJ ==> spec.size == SZ_B || spec.size == SZ_Z || spec.size == SZ_V)
  }

  /** The printers' assertions hold of an operand if and only if it is not a relative offset of 64 bits. */
  ghost predicate AsAsserted(op: Operand, oprMode: nat) {
    Printable(op, oprMode) <==> !(op.ty == JimmOp && op.size == 64)
  }

  ghost predicate Resolved(c: Core) {
    && (c.oprMode == 16 || c.oprMode == 32 || c.oprMode == 64)
    && (c.adrMode == 16 || c.adrMode == 32 || c.adrMode == 64)
  }

  lemma UintBits(rem: seq<byte>, c: Core, size: nat)
    requires Width(size)
    ensures Uint(rem, c, size / 8).1 < Range(size)
  {
    var a := Pow256(1);
    var b := Pow256(2);
    assert a == 256 && b == 256 * a;
    var d := Pow256(4);
    assert d == 256 * Pow256(3) == 256 * (256 * b);
    assert Pow256(8) == 256 * Pow256(7) == 256 * (256 * Pow256(6));
    assert Pow256(6) == 256 * Pow256(5) == 256 * (256 * d);
  }

  /** Operands read straight from the input. */
  lemma InlineDecodes(rem: seq<byte>, cfg: Config, c: Core, op: Operand, spec: OperandSpec)
    requires Resolved(c) && WfSpec(spec) && IsInlineCode(spec.code) && op == CLEARED.(code := spec.code)
    ensures AsAsserted(DecodeInlineOperand(rem, cfg, c, op, spec).1, c.oprMode)
  {
    if spec.code == OpSI || spec.code == OpI || spec.code == OpJ {
      ImmDecodes(rem, cfg, c, op, spec);
    }
  }

  lemma ImmDecodes(rem: seq<byte>, cfg: Config, c: Core, op: Operand, spec: OperandSpec)
    requires Resolved(c) && WfSpec(spec) && (spec.code == OpSI || spec.code == OpI || spec.code == OpJ)
    requires op == CLEARED.(code := spec.code)
    ensures AsAsserted(DecodeInlineOperand(rem, cfg, c, op, spec).1, c.oprMode)
  {
    var sz := ResolveSize(cfg, c, spec.size) % 256;
    UintBits(rem, c, sz);
  }

  /** Every address form either leaves the displacement out or satisfies the printer. */
  lemma AddressPrintable(c: Core, mod: nat, rm: nat)
    requires mod <= 2
    ensures var a := AddressOf(c, mod, rm);
            a.offset == 0 || DispPrintable(CLEARED.(base := a.base, index := a.index, scale := a.scale,
              offset := a.offset))
  {
  }

  lemma MemDecodes(rem: seq<byte>, cfg: Config, c: Core, op: Operand, mod: nat, rm: nat, size: nat)
    requires mod <= 2 && op.offset == 0
    ensures AsAsserted(DecodeMem(rem, cfg, c, op, mod, rm, size).1, c.oprMode)
  {
    AddressPrintable(if NeedsSib(c, rm) then Next(rem, c).0 else c, mod, rm);
  }

  lemma RmDecodes(rem: seq<byte>, cfg: Config, c: Core, op: Operand, cls: RegClass, size: nat)
    requires op.offset == 0 && op.ty == NoOperand
    ensures AsAsserted(DecodeModrmRm(rem, cfg, c, op, cls, size).1, c.oprMode)
  {
    var (c1, m) := Modrm(rem, c);
    var rm := RexB(c1.insn.rex) * 8 + RmOf(m);
    if ModOf(m) != 3 {
      MemDecodes(rem, cfg, c1, op, ModOf(m), rm, size);
    } else {
      RegDecodes(cfg, c1, op, cls, rm, size);
    }
  }

  lemma RmKindsDecode(rem: seq<byte>, cfg: Config, c: Core, op: Operand, cls: RegClass, size: nat, want3: bool)
    requires op.offset == 0 && op.ty == NoOperand
    ensures AsAsserted(DecodeRmChecked(rem, cfg, c, op, cls, size, want3).1, c.oprMode)
    ensures AsAsserted(DecodeRmSized(rem, cfg, c, op, cls, size).1, c.oprMode)
  {
    var (c1, m) := Modrm(rem, c);
    RmDecodes(rem, cfg, c1, op, cls, if ModOf(m) == 3 then RegSize(size) else MemSize(size));
    RmDecodes(rem, cfg, if (ModOf(m) == 3) == want3 then c1 else Fail(c1), op, cls, size);
  }

  /** Operands given by the r/m field. */
  lemma RmOperandDecodes(rem: seq<byte>, cfg: Config, c: Core, op: Operand, spec: OperandSpec)
    requires op.offset == 0 && op.ty == NoOperand
    ensures AsAsserted(DecodeRmOperand(rem, cfg, c, op, spec).1, c.oprMode)
  {
    var code, cls := spec.code, RmClass(spec.code);
    RmDecodes(rem, cfg, c, op, cls, spec.size);
    RmKindsDecode(rem, cfg, c, op, cls, spec.size, false);
    var c0 := if code == OpF then c.(insn := c.insn.(brFar := true)) else c;
    RmKindsDecode(rem, cfg, c0, op, cls, spec.size, code != OpF && code != OpM);
  }

  lemma OperandDecodes(rem: seq<byte>, cfg: Config, c: Core, spec: OperandSpec)
    requires Resolved(c) && WfSpec(spec)
    ensures AsAsserted(DecodeOperand(rem, cfg, c, spec).1, c.oprMode)
  {
    var op := CLEARED.(code := spec.code);
    if IsRmCode(spec.code) {
      RmOperandDecodes(rem, cfg, c, op, spec);
    } else if IsRegCode(spec.code) {
      RegDecodes(cfg, Modrm(rem, c).0, op, RegFieldClass(spec.code),
                 RexR(Modrm(rem, c).0.insn.rex) * 8 + RegOf(Modrm(rem, c).1), spec.size);
    } else if IsInlineCode(spec.code) {
      InlineDecodes(rem, cfg, c, op, spec);
    } else {
      ImpliedDecodes(cfg, c, op, spec);
    }
  }

  lemma RegDecodes(cfg: Config, c: Core, op: Operand, cls: RegClass, num: nat, size: nat)
    requires op.ty == NoOperand
    ensures AsAsserted(DecodeReg(cfg, c, op, cls, num, size).1, c.oprMode)
  {
  }

  lemma ImpliedDecodes(cfg: Config, c: Core, op: Operand, spec: OperandSpec)
    requires op.ty == NoOperand
    ensures AsAsserted(DecodeImpliedOperand(cfg, c, op, spec).1, c.oprMode)
  {
    match spec.code
    case OpRn(n) => RegDecodes(cfg, c, op, GprClass, RexB(c.insn.rex) * 8 + n, spec.size);
    case Fixed(n) => RegDecodes(cfg, c, op, GprClass, n, spec.size);
    case _ =>
  }

  /** A relative offset can be printed unless its description gives it the operand size and that is 64. */
  lemma RelExact(rem: seq<byte>, cfg: Config, c: Core, spec: OperandSpec)
    requires Resolved(c) && WfSpec(spec) && spec.code == OpJ
    ensures Printable(DecodeOperand(rem, cfg, c, spec).1, c.oprMode) <==> !(spec.size == SZ_V && c.oprMode == 64)
  {
    OperandDecodes(rem, cfg, c, spec);
  }

  ghost predicate AllAsAsserted(c: Core) {
    AsAsserted(c.insn.op0, c.oprMode) && AsAsserted(c.insn.op1, c.oprMode) && AsAsserted(c.insn.op2, c.oprMode)
  }

  lemma OperandsDecode(rem: seq<byte>, cfg: Config, c: Core, e: Entry)
    requires Resolved(c) && WfSpec(e.operand1) && WfSpec(e.operand2) && WfSpec(e.operand3)
    ensures AllAsAsserted(DecodeOperands(rem, cfg, c, e))
  {
    var (c0, op0) := DecodeOperand(rem, cfg, c, e.operand1);
    OperandDecodes(rem, cfg, c, e.operand1);
    var c0' := c0.(insn := c0.insn.(op0 := op0));
    var (c1, op1) := DecodeOperand(rem, cfg, c0', e.operand2);
    OperandDecodes(rem, cfg, c0', e.operand2);
    OperandDecodes(rem, cfg, c1.(insn := c1.insn.(op1 := op1)), e.operand3);
  }

  ghost predicate WfRow(e: Entry) {
    WfSpec(e.operand1) && WfSpec(e.operand2) && WfSpec(e.operand3)
  }

  lemma EntersResolved(cfg: Config, c: Core, e: Entry)
    ensures EnterRow(cfg, c, e).1 ==> Resolved(EnterRow(cfg, c, e).0)
  {
  }

  lemma MnemonicKeeps(cfg: Config, c: Core)
    requires AllAsAsserted(c)
    ensures AllAsAsserted(ResolveMnemonic(cfg, c).0)
  {
  }

  lemma InsnDecodes(rem: seq<byte>, cfg: Config, c: Core, e: Entry)
    requires WfRow(e) && c.insn.op0 == CLEARED && c.insn.op1 == CLEARED && c.insn.op2 == CLEARED
    ensures AllAsAsserted(DecodeInsn(rem, cfg, c, e).0)
  {
    var (c1, ok) := EnterRow(cfg, c, e);
    EntersResolved(cfg, c, e);
    if ok {
      OperandsDecode(rem, cfg, c1, e);
      MnemonicKeeps(cfg, DecodeOperands(rem, cfg, c1, e));
    }
  }

  /** Every row's operand descriptions are in the dictionary. */
  ghost predicate WfRows(flat: Flat) {
    forall i :: 0 <= i < |flat.itab| ==> WfRow(flat.itab[i])
  }

  ghost predicate WfTarget(t: Target) {
    match t
    case Row(e) => WfRow(e)
    case Now(sample, _) => WfRow(sample)
  }

  lemma ArriveDecodes(rem: seq<byte>, cfg: Config, c: Core, t: Option<Target>)
    requires (t.Some? ==> WfTarget(t.value)) && c.insn.op0 == CLEARED && c.insn.op1 == CLEARED && c.insn.op2 == CLEARED
    ensures AllAsAsserted(Arrive(rem, cfg, c, t).0)
  {
    match t
    case None =>
    case Some(Row(e)) => InsnDecodes(rem, cfg, c, e);
    case Some(Now(sample, names)) => InsnDecodes(rem, cfg, c, sample);
  }

  lemma {:induction false} WalkExtTarget(flat: Flat, rem: seq<byte>, cfg: Config, c: Core, ptr: nat)
    requires WfFlat(flat) && WfRows(flat) && ValidPtr(flat, c, ptr)
    ensures WfTarget(WalkExt(flat, rem, cfg, c, ptr).1) && SameOperands(c, WalkExt(flat, rem, cfg, c, ptr).0)
    decreases Ahead(flat, ptr)
  {
    if IsLeaf(flat, ptr) {
      if IsGroup(ptr) {
        var g := ptr - GROUP_BIT;
        assert WfTable(flat, g);
        assert WfEntry(flat, g, 0x0c, flat.tables[g].row[0x0c]);
      }
    } else {
      var (c1, next) := ExtStep(flat, rem, cfg, c, ptr - GROUP_BIT);
      WalkExtTarget(flat, rem, cfg, c1, next);
    }
  }

  lemma {:induction false} WalkOpcodeTarget(flat: Flat, rem: seq<byte>, cfg: Config, c: Core, g: nat)
    requires WfFlat(flat) && WfRows(flat) && g < |flat.tables| && flat.tables[g].kind == OpcTbl && Entering(c)
    ensures var (d, t) := WalkOpcode(flat, rem, cfg, c, g); SameOperands(c, d) && (t.Some? ==> WfTarget(t.value))
    decreases |flat.tables| - g
  {
    if !c.insn.err {
      var c1, ptr := c.(primary := Some(c.curr)), OpcodeEntry(flat, c, g);
      if NextOpcodeTable(flat, ptr) {
        WalkOpcodeTarget(flat, rem, cfg, Next(rem, c1).0, ptr - GROUP_BIT);
      } else {
        WalkExtTarget(flat, rem, cfg, c1, ptr);
      }
    }
  }

  /** Every operand of every decoded instruction meets the printers' assertions, except that the printer of
      relative offsets refuses one that its table row gives the operand size and that is 64. */
  lemma DecodePrintable(flat: Flat, cfg: Config, rem: seq<byte>)
    requires WfFlat(flat) && WfRows(flat)
    ensures AllAsAsserted(Decode(flat, cfg, rem))
  {
    PrefixesEntering(rem, cfg, FRESH, 0);
    WalkOpcodeTarget(flat, rem, cfg, DecodePrefixes(rem, cfg, FRESH, 0), 0);
    var (c, t) := Walk(flat, cfg, rem);
    ArriveDecodes(rem, cfg, c, t);
    FinishKeeps(flat.itab[0], Arrive(rem, cfg, c, t).0, Arrive(rem, cfg, c, t).1);
  }

  lemma FinishKeeps(invalid: Entry, c: Core, ret: int)
    requires AllAsAsserted(c)
    ensures AllAsAsserted(Finish(invalid, c, ret))
  {
  }
}
