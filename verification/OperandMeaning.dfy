/** Decoded operands are what the instruction's bytes encode (decode.c). */
module OperandMeaning {
  import opened Bytes
  import opened Modular
  import opened Patching
  import opened Itab
  import opened OpcodeTables
  import opened DecoderState
  import opened Operands
  import opened Encoding
  import opened OperandEncoding

  // ----- Reading bytes -------------------------------------------------------------------------

  /** Numbers are read little end first from where the decoder is. */
  lemma {:induction false} UintMeans(rem: seq<byte>, c: Core, n: nat)
    requires !c.end && !Uint(rem, c, n).0.end
    ensures Uint(rem, c, n).1 == NumberAt(rem, c.ctr, n)
    ensures Uint(rem, c, n).0 == c.(ctr := c.ctr + n, curr := Uint(rem, c, n).0.curr)
    decreases n
  {
    if n > 0 {
      UintMeans(rem, Next(rem, c).0, n - 1);
      assert BytesAt(rem, c.ctr, n)[1..] == BytesAt(rem, c.ctr + 1, n - 1);
    }
  }

  /** The decoder has the frame's sizes and REX bits, */
  ghost predicate Modes(f: Frame, cfg: Config, c: Core) {
    && FrameOk(f) && cfg.mode == f.mode && c.oprMode == f.opr && c.adrMode == f.adr
    && (RexR(c.insn.rex) == 1 <==> f.r) && (RexX(c.insn.rex) == 1 <==> f.x) && (RexB(c.insn.rex) == 1 <==> f.b)
    && (c.insn.rex != 0 <==> f.anyRex)
  }

  /** and has read so far without an error. */
  ghost predicate Reads(f: Frame, cfg: Config, c: Core, from: Read) {
    && Modes(f, cfg, c) && c.ctr == from.upTo && !c.end && !c.insn.err
    && (c.modrm.Some? <==> from.modrm) && (from.modrm ==> f.at < |f.rem| && c.modrm.value == f.rem[f.at])
  }

  predicate BeforeModrm(f: Frame, from: Read) { !from.modrm ==> from.upTo == f.at }

  lemma ModrmMeans(f: Frame, cfg: Config, c: Core, from: Read)
    requires Reads(f, cfg, c, from) && BeforeModrm(f, from) && !Modrm(f.rem, c).0.end
    ensures Modrm(f.rem, c).1 == ModrmByte(f)
    ensures Reads(f, cfg, Modrm(f.rem, c).0, Read(true, if from.modrm then from.upTo else f.at + 1))
  {
  }

  lemma WidthMeans(f: Frame, cfg: Config, c: Core, size: nat)
    requires Modes(f, cfg, c)
    ensures ResolveSize(cfg, c, size) == OperandEncoding.Width(f, size)
  {
  }

  // ----- Registers ---------------------------------------------------------------------------------

  function FileOf(cls: RegClass): File {
    match cls
    case GprClass => GprFile
    case MmxClass => MmxFile
    case XmmClass => XmmFile
    case CrClass => CrFile
    case DbClass => DrFile
    case SegClass => SegFile
  }

  /** A decoded register reads what the encoding says. */
  lemma RegMeans(f: Frame, cfg: Config, c: Core, op: Operand, cls: RegClass, n: nat, size: nat)
    requires Modes(f, cfg, c) && n < 16 && (n >= 8 ==> f.anyRex) && !DecodeReg(cfg, c, op, cls, n, size).0.insn.err
    ensures IsRegister(f, DecodeReg(cfg, c, op, cls, n, size).1, FileOf(cls), n, OperandEncoding.Width(f, size))
    ensures DecodeReg(cfg, c, op, cls, n, size).0 == c
  {
    WidthMeans(f, cfg, c, size);
  }

  // ----- Addresses ------------------------------------------------------------------------------------

  /** Registers and scale of an address. */
  function Sum(a: Address, regs: Regs): nat {
    ValueOf(a.base, regs) + ValueOf(a.index, regs) * (if a.scale == 0 then 1 else a.scale)
  }

  function Encoded(f: Frame, regs: Regs): nat {
    if f.adr == 16 then Pair16(f, regs)
    else if HasSib(f) then SibBase(f, regs) + SibIndex(f, regs)
    else Single(f, regs)
  }

  /** The address forms, for the byte that follows ModRM. */
  ghost predicate FormRight(f: Frame, a: Address) {
    a.offset == 8 * DispBytes(f) && forall regs: Regs :: Sum(a, regs) == Encoded(f, regs)
  }

  /** The REX bits are the frame's. */
  predicate RexIs(f: Frame, rex: byte) { (RexX(rex) == 1 <==> f.x) && (RexB(rex) == 1 <==> f.b) }

  lemma Form64(f: Frame, rex: byte)
    requires f.adr == 64 && f.mode == 64 && ModrmByte(f) < 0xC0 && RexIs(f, rex)
    ensures FormRight(f, Address64(ModOf(ModrmByte(f)), RexB(rex) * 8 + RmOf(ModrmByte(f)), SibByte(f), rex))
  {
    if HasSib(f) { Sib64(f, rex); } else { Single64(f, rex); }
  }

  lemma Single64(f: Frame, rex: byte)
    requires f.adr == 64 && f.mode == 64 && ModrmByte(f) < 0xC0 && RexIs(f, rex) && !HasSib(f)
    ensures FormRight(f, Address64(ModOf(ModrmByte(f)), RexB(rex) * 8 + RmOf(ModrmByte(f)), SibByte(f), rex))
  {
  }

  lemma Sib64(f: Frame, rex: byte)
    requires f.adr == 64 && f.mode == 64 && ModrmByte(f) < 0xC0 && RexIs(f, rex) && HasSib(f)
    ensures FormRight(f, Address64(ModOf(ModrmByte(f)), RexB(rex) * 8 + RmOf(ModrmByte(f)), SibByte(f), rex))
  {
    var a := Address64(ModOf(ModrmByte(f)), RexB(rex) * 8 + RmOf(ModrmByte(f)), SibByte(f), rex);
    forall regs: Regs
      ensures Sum(a, regs) == Encoded(f, regs)
    {
      Base64(f, rex, regs);
      Index64(f, rex, regs);
    }
  }

  lemma Base64(f: Frame, rex: byte, regs: Regs)
    requires f.adr == 64 && f.mode == 64 && ModrmByte(f) < 0xC0 && RexIs(f, rex) && HasSib(f)
    ensures var a := Address64(ModOf(ModrmByte(f)), RexB(rex) * 8 + RmOf(ModrmByte(f)), SibByte(f), rex);
            a.offset == 8 * DispBytes(f) && ValueOf(a.base, regs) == SibBase(f, regs)
  {
  }

  lemma Index64(f: Frame, rex: byte, regs: Regs)
    requires f.adr == 64 && f.mode == 64 && ModrmByte(f) < 0xC0 && RexIs(f, rex) && HasSib(f)
    ensures var a := Address64(ModOf(ModrmByte(f)), RexB(rex) * 8 + RmOf(ModrmByte(f)), SibByte(f), rex);
            ValueOf(a.index, regs) * (if a.scale == 0 then 1 else a.scale) == SibIndex(f, regs)
  {
  }

  lemma Form32(f: Frame, rex: byte)
    requires FrameOk(f) && f.adr == 32 && ModrmByte(f) < 0xC0 && Addressable(f) && RexIs(f, rex)
    ensures FormRight(f, Address32(ModOf(ModrmByte(f)), RexB(rex) * 8 + RmOf(ModrmByte(f)), SibByte(f), rex))
  {
    if HasSib(f) { Sib32(f, rex); } else { Single32(f, rex); }
  }

  lemma Single32(f: Frame, rex: byte)
    requires FrameOk(f) && f.adr == 32 && ModrmByte(f) < 0xC0 && Addressable(f) && RexIs(f, rex) && !HasSib(f)
    ensures FormRight(f, Address32(ModOf(ModrmByte(f)), RexB(rex) * 8 + RmOf(ModrmByte(f)), SibByte(f), rex))
  {
  }

  lemma Sib32(f: Frame, rex: byte)
    requires FrameOk(f) && f.adr == 32 && ModrmByte(f) < 0xC0 && Addressable(f) && RexIs(f, rex) && HasSib(f)
    ensures FormRight(f, Address32(ModOf(ModrmByte(f)), RexB(rex) * 8 + RmOf(ModrmByte(f)), SibByte(f), rex))
  {
    var a := Address32(ModOf(ModrmByte(f)), RexB(rex) * 8 + RmOf(ModrmByte(f)), SibByte(f), rex);
    forall regs: Regs
      ensures Sum(a, regs) == Encoded(f, regs)
    {
      Base32(f, rex, regs);
      Index32(f, rex, regs);
    }
  }

  lemma Base32(f: Frame, rex: byte, regs: Regs)
    requires FrameOk(f) && f.adr == 32 && ModrmByte(f) < 0xC0 && Addressable(f) && RexIs(f, rex) && HasSib(f)
    ensures var a := Address32(ModOf(ModrmByte(f)), RexB(rex) * 8 + RmOf(ModrmByte(f)), SibByte(f), rex);
            a.offset == 8 * DispBytes(f) && ValueOf(a.base, regs) == SibBase(f, regs)
  {
  }

  lemma Index32(f: Frame, rex: byte, regs: Regs)
    requires FrameOk(f) && f.adr == 32 && ModrmByte(f) < 0xC0 && Addressable(f) && RexIs(f, rex) && HasSib(f)
    ensures var a := Address32(ModOf(ModrmByte(f)), RexB(rex) * 8 + RmOf(ModrmByte(f)), SibByte(f), rex);
            ValueOf(a.index, regs) * (if a.scale == 0 then 1 else a.scale) == SibIndex(f, regs)
  {
  }

  lemma Form16(f: Frame)
    requires f.adr == 16 && f.mode != 64 && ModrmByte(f) < 0xC0
    ensures FormRight(f, Address16(ModOf(ModrmByte(f)), RmOf(ModrmByte(f))))
  {
  }

  // ----- The forms that are not right -------------------------------------------------------------------

  /** The operand of an address with a displacement. */
  function OperandAt(a: Address, v: nat): Operand {
    CLEARED.(base := a.base, index := a.index, scale := a.scale, offset := a.offset, lval := v)
  }

  predicate Differs(f: Frame, op: Operand, regs: Regs) {
    AddressNamed(op, f.adr, regs) != AddressEncoded(f, regs)
  }

  const NO_REGS: Regs := Regs(_ => 0, 0)

  /** Relative to the next instruction, taken for an address without a base, or for R13D. */
  lemma RipMissed(f: Frame, rex: byte, v: nat)
    requires f.adr == 32 && f.mode == 64 && ModrmByte(f) / 64 == 0 && ModrmByte(f) % 8 == 5 && RexIs(f, rex)
    requires !f.b ==> v == NumberAt(f.rem, f.at + 1, 4)
    ensures var op := OperandAt(Address32(0, RexB(rex) * 8 + 5, SibByte(f), rex), v);
            Differs(f, op, NO_REGS) || Differs(f, op, NO_REGS.(rip := 1))
  {
  }

  /** No base, taken for R13D. */
  predicate NoBaseForm(f: Frame) {
    f.adr == 32 && ModrmByte(f) / 64 == 0 && ModrmByte(f) % 8 == 4 && SibByte(f) % 8 == 5 && f.b
  }

  const R13_REGS: Regs := Regs(n => if n == 13 then 1 else 0, 0)

  lemma NoBaseMissed(f: Frame, rex: byte, v: nat)
    requires NoBaseForm(f) && RexIs(f, rex)
    ensures var op := OperandAt(Address32(0, RexB(rex) * 8 + 4, SibByte(f), rex), v);
            Differs(f, op, NO_REGS) || Differs(f, op, R13_REGS)
  {
    NoBaseSums(f, rex, v, NO_REGS);
    NoBaseSums(f, rex, v, R13_REGS);
    IndexSmall(f);
    NeverBoth(Disp(f), SibIndex(f, R13_REGS));
  }

  lemma NeverBoth(d: int, k: nat)
    requires k <= 8
    ensures d % HALF != 0 || (1 + k) % HALF != (k + d) % HALF
  {
    ModAdd(d, k, HALF);
  }

  lemma IndexSmall(f: Frame)
    requires NoBaseForm(f)
    ensures SibIndex(f, NO_REGS) == 0 && SibIndex(f, R13_REGS) <= 8
  {
  }

  lemma NoBaseSums(f: Frame, rex: byte, v: nat, regs: Regs)
    requires NoBaseForm(f) && RexIs(f, rex)
    ensures AddressNamed(OperandAt(Address32(0, RexB(rex) * 8 + 4, SibByte(f), rex), v), 32, regs) ==
            (Gpr(f, 13, regs) + SibIndex(f, regs)) % HALF
    ensures AddressEncoded(f, regs) == (SibIndex(f, regs) + Disp(f)) % HALF
  {
  }

  // ----- Memory operands ------------------------------------------------------------------------------------

  /** The form that the decoder takes. */
  function FormTaken(f: Frame, rex: byte): Address {
    var mod, rm := ModOf(ModrmByte(f)), RexB(rex) * 8 + RmOf(ModrmByte(f));
    if f.adr == 64 then Address64(mod, rm, SibByte(f), rex)
    else if f.adr == 32 then Address32(mod, rm, SibByte(f), rex)
    else Address16(mod, rm)
  }

  lemma TakenRight(f: Frame, rex: byte)
    requires FrameOk(f) && (f.adr == 64 ==> f.mode == 64) && (f.adr == 16 ==> f.mode != 64)
    requires ModrmByte(f) < 0xC0 && RexIs(f, rex) && Addressable(f)
    ensures FormRight(f, FormTaken(f, rex))
  {
    if f.adr == 64 {
      Form64(f, rex);
    } else if f.adr == 32 {
      Form32(f, rex);
    } else {
      TakenRight16(f, rex);
    }
  }

  lemma TakenRight16(f: Frame, rex: byte)
    requires FrameOk(f) && f.adr == 16 && f.mode != 64 && ModrmByte(f) < 0xC0 && RexIs(f, rex)
    ensures FormRight(f, FormTaken(f, rex))
  {
    assert RexB(rex) == 0;
    Form16(f);
  }

  /** With its displacement read, an operand of the right form names the address that is encoded. */
  lemma NamesEncoded(f: Frame, a: Address, op: Operand)
    requires FormRight(f, a) && op.base == a.base && op.index == a.index && op.scale == a.scale && op.offset == a.offset
    requires a.offset != 0 ==> op.lval == NumberAt(f.rem, f.at + (if HasSib(f) then 2 else 1), DispBytes(f))
    ensures Addresses(f, op)
  {
    forall regs: Regs
      ensures AddressNamed(op, f.adr, regs) == AddressEncoded(f, regs)
    {
      assert Sum(a, regs) == Encoded(f, regs);
    }
  }

  /** One of the wrong forms does not. */
  lemma NamesAnother(f: Frame, rex: byte, op: Operand)
    requires FrameOk(f) && !Addressable(f) && RexIs(f, rex)
    requires var a := FormTaken(f, rex);
             op.base == a.base && op.index == a.index && op.scale == a.scale && op.offset == a.offset
    requires op.offset != 0 ==> op.lval == NumberAt(f.rem, f.at + 1, op.offset / 8)
    ensures !Addresses(f, op)
  {
    var a := FormTaken(f, rex);
    if ModrmByte(f) % 8 == 5 {
      RipMissed(f, rex, op.lval);
      SameNames(f, op, OperandAt(a, op.lval), NO_REGS);
      SameNames(f, op, OperandAt(a, op.lval), NO_REGS.(rip := 1));
    } else {
      NoBaseMissed(f, rex, op.lval);
      SameNames(f, op, OperandAt(a, op.lval), NO_REGS);
      SameNames(f, op, OperandAt(a, op.lval), R13_REGS);
    }
  }

  lemma SameNames(f: Frame, op: Operand, other: Operand, regs: Regs)
    requires op.base == other.base && op.index == other.index && op.scale == other.scale && op.offset == other.offset
    requires op.lval == other.lval
    ensures Addresses(f, op) ==> !Differs(f, other, regs)
  {
  }

  predicate ModesFit(f: Frame) { (f.adr == 64 ==> f.mode == 64) && (f.adr == 16 ==> f.mode != 64) }

  /** What decoding a memory operand leaves: the form, and the displacement behind ModRM and SIB. */
  lemma MemShape(f: Frame, cfg: Config, c: Core, op: Operand, size: nat, rm: nat)
    requires Reads(f, cfg, c, Read(true, f.at + 1)) && ModrmByte(f) < 0xC0
    requires op.offset == 0 && rm == RexB(c.insn.rex) * 8 + RmOf(ModrmByte(f))
    requires !DecodeMem(f.rem, cfg, c, op, ModOf(ModrmByte(f)), rm, size).0.end
    ensures var (d, r) := DecodeMem(f.rem, cfg, c, op, ModOf(ModrmByte(f)), rm, size);
            var a, sib := FormTaken(f, c.insn.rex), if HasSib(f) then 1 else 0;
            && r.ty == MemOp && r.size == OperandEncoding.Width(f, size) % 0x100
            && r.base == a.base && r.index == a.index && r.scale == a.scale && r.offset == a.offset
            && (r.offset != 0 ==> r.lval == NumberAt(f.rem, f.at + 1 + sib, r.offset / 8))
            && Reads(f, cfg, d, Read(true, f.at + 1 + sib + a.offset / 8))
  {
    WidthMeans(f, cfg, c, size);
    var c1 := if NeedsSib(c, rm) then Next(f.rem, c).0 else c;
    var a := AddressOf(c1, ModOf(ModrmByte(f)), rm);
    SibRead(f, cfg, c, rm);
    WidthOfDisp(f, c.insn.rex);
    var op1 := op.(ty := MemOp, size := OperandEncoding.Width(f, size) % 256, base := a.base, index := a.index,
                   scale := a.scale);
    assert DecodeMem(f.rem, cfg, c, op, ModOf(ModrmByte(f)), rm, size) ==
           if a.offset != 0 then DecodeDisp(f.rem, c1, op1, a.offset) else (c1, op1);
    if a.offset != 0 {
      DispRead(f, cfg, c1, op1, a.offset, Read(true, f.at + 1 + (if HasSib(f) then 1 else 0)));
    }
  }

  lemma DispRead(f: Frame, cfg: Config, c: Core, op: Operand, width: nat, from: Read)
    requires Reads(f, cfg, c, from) && (width == 8 || width == 16 || width == 32)
    requires !DecodeDisp(f.rem, c, op, width).0.end
    ensures var (d, r) := DecodeDisp(f.rem, c, op, width);
            && r == op.(offset := width, lval := NumberAt(f.rem, from.upTo, width / 8))
            && Reads(f, cfg, d, from.(upTo := from.upTo + width / 8))
  {
    UintMeans(f.rem, c, width / 8);
  }

  lemma SibRead(f: Frame, cfg: Config, c: Core, rm: nat)
    requires Reads(f, cfg, c, Read(true, f.at + 1)) && ModrmByte(f) < 0xC0
    requires rm == RexB(c.insn.rex) * 8 + RmOf(ModrmByte(f)) && (NeedsSib(c, rm) ==> !Next(f.rem, c).0.end)
    ensures NeedsSib(c, rm) <==> HasSib(f)
    ensures var c1 := if NeedsSib(c, rm) then Next(f.rem, c).0 else c;
            && AddressOf(c1, ModOf(ModrmByte(f)), rm) == FormTaken(f, c.insn.rex)
            && Reads(f, cfg, c1, Read(true, f.at + 1 + (if HasSib(f) then 1 else 0)))
  {
  }

  lemma WidthOfDisp(f: Frame, rex: byte)
    requires ModrmByte(f) < 0xC0
    ensures var a := FormTaken(f, rex); a.offset == 0 || a.offset == 8 || a.offset == 16 || a.offset == 32
  {
  }

  /** A decoded memory operand. */
  lemma MemMeans(f: Frame, cfg: Config, c: Core, op: Operand, size: nat, rm: nat, x: (Core, Operand))
    requires Reads(f, cfg, c, Read(true, f.at + 1)) && ModesFit(f) && ModrmByte(f) < 0xC0
    requires op.offset == 0 && rm == RexB(c.insn.rex) * 8 + RmOf(ModrmByte(f))
    requires x == DecodeMem(f.rem, cfg, c, op, ModOf(ModrmByte(f)), rm, size) && !x.0.end
    ensures IsMemory(f, x.1, OperandEncoding.Width(f, size))
    ensures Addressable(f) ==> Reads(f, cfg, x.0, Read(true, f.at + 1 + AddressBytes(f)))
  {
    MemShape(f, cfg, c, op, size, rm);
    FormNames(f, c.insn.rex, x.1);
  }

  /** The form that is taken names the encoded address if and only if it is one of the right ones. */
  lemma FormNames(f: Frame, rex: byte, r: Operand)
    requires FrameOk(f) && ModesFit(f) && ModrmByte(f) < 0xC0 && RexIs(f, rex)
    requires var a := FormTaken(f, rex);
             r.base == a.base && r.index == a.index && r.scale == a.scale && r.offset == a.offset
    requires r.offset != 0 ==> r.lval == NumberAt(f.rem, f.at + 1 + (if HasSib(f) then 1 else 0), r.offset / 8)
    ensures Addresses(f, r) <==> Addressable(f)
    ensures Addressable(f) ==> FormTaken(f, rex).offset / 8 == DispBytes(f)
  {
    if Addressable(f) {
      TakenRight(f, rex);
      NamesEncoded(f, FormTaken(f, rex), r);
    } else {
      NotAddressableForm(f, rex);
      NamesAnother(f, rex, r);
    }
  }

  lemma NotAddressableForm(f: Frame, rex: byte)
    requires !Addressable(f) && RexIs(f, rex)
    ensures HasSib(f) ==> FormTaken(f, rex).offset == 0
  {
  }

  // ----- One operand ---------------------------------------------------------------------------------------

  /** Where an r/m operand leaves the decoder. */
  function BehindRm(f: Frame): Read { Read(true, f.at + 1 + (if ModrmByte(f) < 0xC0 then AddressBytes(f) else 0)) }

  predicate RightForm(f: Frame) { ModrmByte(f) < 0xC0 ==> Addressable(f) }

  /** What an r/m operand of one class and size is. */
  ghost predicate RmIs(f: Frame, op: Operand, cls: RegClass, size: nat) {
    if ModrmByte(f) < 0xC0 then IsMemory(f, op, OperandEncoding.Width(f, size))
    else IsRegister(f, op, FileOf(cls), RmNumber(f), OperandEncoding.Width(f, size))
  }

  predicate AtModrm(f: Frame, from: Read) { from.upTo == f.at + (if from.modrm then 1 else 0) }

  lemma ModrmRmMeans(f: Frame, cfg: Config, c: Core, op: Operand, cls: RegClass, size: nat, from: Read)
    requires Reads(f, cfg, c, from) && ModesFit(f) && AtModrm(f, from) && op.offset == 0
    requires var d := DecodeModrmRm(f.rem, cfg, c, op, cls, size).0; !d.end && !d.insn.err
    ensures var (d, r) := DecodeModrmRm(f.rem, cfg, c, op, cls, size);
            RmIs(f, r, cls, size) && (RightForm(f) ==> Reads(f, cfg, d, BehindRm(f)))
  {
    if ModrmByte(f) >= 0xC0 {
      RmRegister(f, cfg, c, op, cls, size, from);
    } else {
      RmMemory(f, cfg, c, op, cls, size, from);
    }
  }

  lemma RmRegister(f: Frame, cfg: Config, c: Core, op: Operand, cls: RegClass, size: nat, from: Read)
    requires Reads(f, cfg, c, from) && AtModrm(f, from) && ModrmByte(f) >= 0xC0
    requires var d := DecodeModrmRm(f.rem, cfg, c, op, cls, size).0; !d.end && !d.insn.err
    ensures var (d, r) := DecodeModrmRm(f.rem, cfg, c, op, cls, size);
            && IsRegister(f, r, FileOf(cls), RmNumber(f), OperandEncoding.Width(f, size))
            && Reads(f, cfg, d, Read(true, f.at + 1))
  {
    ModrmEnd(f, cfg, c, op, cls, size);
    AtModrmRead(f, cfg, c, from);
    ModrmSplit(f, cfg, c, op, cls, size);
    RmFieldRead(f, cfg, Modrm(f.rem, c).0, op, cls, size, ModrmByte(f));
  }

  lemma AtModrmRead(f: Frame, cfg: Config, c: Core, from: Read)
    requires Reads(f, cfg, c, from) && AtModrm(f, from) && !Modrm(f.rem, c).0.end
    ensures Modrm(f.rem, c).1 == ModrmByte(f) && Reads(f, cfg, Modrm(f.rem, c).0, Read(true, f.at + 1))
  {
    ModrmMeans(f, cfg, c, from);
  }

  lemma ModrmEnd(f: Frame, cfg: Config, c: Core, op: Operand, cls: RegClass, size: nat)
    ensures Modrm(f.rem, c).0.end ==> DecodeModrmRm(f.rem, cfg, c, op, cls, size).0.end
  {
  }

  lemma RmMemory(f: Frame, cfg: Config, c: Core, op: Operand, cls: RegClass, size: nat, from: Read)
    requires Reads(f, cfg, c, from) && ModesFit(f) && AtModrm(f, from) && op.offset == 0 && ModrmByte(f) < 0xC0
    requires var d := DecodeModrmRm(f.rem, cfg, c, op, cls, size).0; !d.end && !d.insn.err
    ensures var (d, r) := DecodeModrmRm(f.rem, cfg, c, op, cls, size);
            && IsMemory(f, r, OperandEncoding.Width(f, size))
            && (Addressable(f) ==> Reads(f, cfg, d, Read(true, f.at + 1 + AddressBytes(f))))
  {
    ModrmEnd(f, cfg, c, op, cls, size);
    AtModrmRead(f, cfg, c, from);
    ModrmSplit(f, cfg, c, op, cls, size);
    var c1 := Modrm(f.rem, c).0;
    MemMeans(f, cfg, c1, op, size, RexB(c1.insn.rex) * 8 + RmOf(ModrmByte(f)),
             DecodeModrmRm(f.rem, cfg, c, op, cls, size));
  }

  lemma ModrmSplit(f: Frame, cfg: Config, c: Core, op: Operand, cls: RegClass, size: nat)
    requires Modrm(f.rem, c).1 == ModrmByte(f)
    ensures var c1 := Modrm(f.rem, c).0;
            var rm := RexB(c1.insn.rex) * 8 + RmOf(ModrmByte(f));
            DecodeModrmRm(f.rem, cfg, c, op, cls, size) ==
            if ModrmByte(f) >= 0xC0 then DecodeReg(cfg, c1, op, cls, rm, size)
            else DecodeMem(f.rem, cfg, c1, op, ModOf(ModrmByte(f)), rm, size)
  {
  }

  lemma RmFieldRead(f: Frame, cfg: Config, c: Core, op: Operand, cls: RegClass, size: nat, m: byte)
    requires Modes(f, cfg, c) && m == ModrmByte(f)
    requires !DecodeReg(cfg, c, op, cls, RexB(c.insn.rex) * 8 + RmOf(m), size).0.insn.err
    ensures var (d, r) := DecodeReg(cfg, c, op, cls, RexB(c.insn.rex) * 8 + RmOf(m), size);
            d == c && IsRegister(f, r, FileOf(cls), RmNumber(f), OperandEncoding.Width(f, size))
  {
    assert RexB(c.insn.rex) * 8 + RmOf(m) == RmNumber(f);
    RegMeans(f, cfg, c, op, cls, RmNumber(f), size);
  }

  /** An operand of the right class and size, and of the form that its description asks for. */
  lemma RmIsRight(f: Frame, spec: OperandSpec, op: Operand)
    requires IsRmCode(spec.code) && RmIs(f, op, RmClass(spec.code), RmSize(spec, ModrmByte(f) < 0xC0))
    requires spec.code == OpM || spec.code == OpF ==> ModrmByte(f) < 0xC0
    requires spec.code == OpN || spec.code == OpU || spec.code == OpR ==> ModrmByte(f) >= 0xC0
    ensures OperandEncoding.RmFile(spec.code) == Some(FileOf(RmClass(spec.code)))
    ensures IsRm(f, spec, op, FileOf(RmClass(spec.code)))
  {
  }

  lemma RmMeans(f: Frame, cfg: Config, c: Core, op: Operand, spec: OperandSpec, from: Read)
    requires Reads(f, cfg, c, from) && ModesFit(f) && AtModrm(f, from) && op.offset == 0 && op.ty == NoOperand
    requires IsRmCode(spec.code)
    requires var d := DecodeRmOperand(f.rem, cfg, c, op, spec).0; !d.end && !d.insn.err
    ensures var (d, r) := DecodeRmOperand(f.rem, cfg, c, op, spec);
            && OperandEncoding.RmFile(spec.code) == Some(FileOf(RmClass(spec.code)))
            && IsRm(f, spec, r, FileOf(RmClass(spec.code)))
            && (RightForm(f) ==> Reads(f, cfg, d, BehindRm(f)))
  {
    var code, cls := spec.code, RmClass(spec.code);
    if code == OpMR || code == OpMU {
      SizedMeans(f, cfg, c, op, cls, spec.size, from);
    } else if code == OpE || code == OpQ || code == OpW {
      ModrmRmMeans(f, cfg, c, op, cls, spec.size, from);
    } else {
      CheckedMeans(f, cfg, if code == OpF then c.(insn := c.insn.(brFar := true)) else c, op, cls, spec.size,
                   code != OpF && code != OpM, from);
    }
    RmIsRight(f, spec, DecodeRmOperand(f.rem, cfg, c, op, spec).1);
  }

  lemma SizedMeans(f: Frame, cfg: Config, c: Core, op: Operand, cls: RegClass, size: nat, from: Read)
    requires Reads(f, cfg, c, from) && ModesFit(f) && AtModrm(f, from) && op.offset == 0
    requires var d := DecodeRmSized(f.rem, cfg, c, op, cls, size).0; !d.end && !d.insn.err
    ensures var (d, r) := DecodeRmSized(f.rem, cfg, c, op, cls, size);
            && RmIs(f, r, cls, if ModrmByte(f) < 0xC0 then size / 0x100 % 0x100 else size % 0x100)
            && (RightForm(f) ==> Reads(f, cfg, d, BehindRm(f)))
  {
    ModrmMeans(f, cfg, c, from);
    ModrmRmMeans(f, cfg, Modrm(f.rem, c).0, op, cls,
                 if ModrmByte(f) < 0xC0 then size / 0x100 % 0x100 else size % 0x100, Read(true, f.at + 1));
  }

  lemma CheckedMeans(f: Frame, cfg: Config, c: Core, op: Operand, cls: RegClass, size: nat, want3: bool, from: Read)
    requires Reads(f, cfg, c, from) && ModesFit(f) && AtModrm(f, from) && op.offset == 0
    requires var d := DecodeRmChecked(f.rem, cfg, c, op, cls, size, want3).0; !d.end && !d.insn.err
    ensures var (d, r) := DecodeRmChecked(f.rem, cfg, c, op, cls, size, want3);
            && RmIs(f, r, cls, size) && (RightForm(f) ==> Reads(f, cfg, d, BehindRm(f)))
            && (want3 <==> ModrmByte(f) >= 0xC0)
  {
    ModrmMeans(f, cfg, c, from);
    ModrmRmMeans(f, cfg, Modrm(f.rem, c).0, op, cls, size, Read(true, f.at + 1));
  }

  lemma RegFieldMeans(f: Frame, cfg: Config, c: Core, op: Operand, spec: OperandSpec, from: Read)
    requires Reads(f, cfg, c, from) && BeforeModrm(f, from) && IsRegCode(spec.code)
    requires var d := DecodeModrmReg(f.rem, cfg, c, op, RegFieldClass(spec.code), spec.size).0; !d.end && !d.insn.err
    ensures var (d, r) := DecodeModrmReg(f.rem, cfg, c, op, RegFieldClass(spec.code), spec.size);
            && OperandEncoding.RmFile(spec.code).None? && OperandEncoding.RegFile(spec.code).Some?
            && IsRegister(f, r, OperandEncoding.RegFile(spec.code).value, RegNumber(f),
                          OperandEncoding.Width(f, spec.size))
            && Reads(f, cfg, d, Read(true, if from.modrm then from.upTo else f.at + 1))
  {
    RegCodeFile(spec.code);
    RegFieldOf(f, cfg, c, op, RegFieldClass(spec.code), spec.size, from);
  }

  lemma RegFieldOf(f: Frame, cfg: Config, c: Core, op: Operand, cls: RegClass, size: nat, from: Read)
    requires Reads(f, cfg, c, from) && BeforeModrm(f, from)
    requires var d := DecodeModrmReg(f.rem, cfg, c, op, cls, size).0; !d.end && !d.insn.err
    ensures var (d, r) := DecodeModrmReg(f.rem, cfg, c, op, cls, size);
            && IsRegister(f, r, FileOf(cls), RegNumber(f), OperandEncoding.Width(f, size))
            && Reads(f, cfg, d, Read(true, if from.modrm then from.upTo else f.at + 1))
  {
    ModrmMeans(f, cfg, c, from);
    RegSplit(f, cfg, c, op, cls, size);
    RegFieldRead(f, cfg, Modrm(f.rem, c).0, op, cls, size, ModrmByte(f));
  }

  lemma RegSplit(f: Frame, cfg: Config, c: Core, op: Operand, cls: RegClass, size: nat)
    requires Modrm(f.rem, c).1 == ModrmByte(f)
    ensures var c1 := Modrm(f.rem, c).0;
            DecodeModrmReg(f.rem, cfg, c, op, cls, size) ==
            DecodeReg(cfg, c1, op, cls, RexR(c1.insn.rex) * 8 + RegOf(ModrmByte(f)), size)
  {
  }

  lemma RegCodeFile(code: OpCode)
    requires IsRegCode(code)
    ensures OperandEncoding.RmFile(code).None? && OperandEncoding.RegFile(code) == Some(FileOf(RegFieldClass(code)))
  {
  }

  lemma RegFieldRead(f: Frame, cfg: Config, c: Core, op: Operand, cls: RegClass, size: nat, m: byte)
    requires Modes(f, cfg, c) && m == ModrmByte(f)
    requires !DecodeReg(cfg, c, op, cls, RexR(c.insn.rex) * 8 + RegOf(m), size).0.insn.err
    ensures var (d, r) := DecodeReg(cfg, c, op, cls, RexR(c.insn.rex) * 8 + RegOf(m), size);
            d == c && IsRegister(f, r, FileOf(cls), RegNumber(f), OperandEncoding.Width(f, size))
  {
    assert RexR(c.insn.rex) * 8 + RegOf(m) == RegNumber(f);
    RegMeans(f, cfg, c, op, cls, RegNumber(f), size);
  }

  /** Operands in line. */
  lemma InlineMeans(f: Frame, cfg: Config, c: Core, op: Operand, spec: OperandSpec, from: Read)
    requires Reads(f, cfg, c, from) && IsInlineCode(spec.code)
    requires op == CLEARED.(code := spec.code)
    requires !DecodeInlineOperand(f.rem, cfg, c, op, spec).0.end
    ensures var (d, r) := DecodeInlineOperand(f.rem, cfg, c, op, spec);
            && Is(f, spec, r, from.upTo) && Reads(f, cfg, d, ReadOn(f, spec, from))
  {
    if spec.code == OpA {
      FarMeans(f, cfg, c, op, from);
    } else if spec.code == OpO {
      OffsetMeans(f, cfg, c, op, spec.size, from);
    } else {
      NumberMeans(f, cfg, c, op, spec.size, from);
    }
  }

  lemma NumberMeans(f: Frame, cfg: Config, c: Core, op: Operand, size: nat, from: Read)
    requires Reads(f, cfg, c, from) && !DecodeImm(f.rem, cfg, c, op, size).0.end
    ensures var width, (d, r) := OperandEncoding.Width(f, size) % 0x100, DecodeImm(f.rem, cfg, c, op, size);
            && IsNumber(f, r, ImmOp, width, from.upTo)
            && Reads(f, cfg, d, from.(upTo := from.upTo + if Readable(width) then width / 8 else 0))
  {
    WidthMeans(f, cfg, c, size);
    var width := OperandEncoding.Width(f, size) % 0x100;
    if Readable(width) { UintMeans(f.rem, c, width / 8); }
  }

  lemma OffsetMeans(f: Frame, cfg: Config, c: Core, op: Operand, size: nat, from: Read)
    requires Reads(f, cfg, c, from) && op.base == NoReg && op.index == NoReg
    requires !DecodeMoffset(f.rem, cfg, c, op, size).0.end
    ensures var (d, r) := DecodeMoffset(f.rem, cfg, c, op, size);
            && IsOffset(f, r, OperandEncoding.Width(f, size), from.upTo)
            && Reads(f, cfg, d, from.(upTo := from.upTo + f.adr / 8))
  {
    WidthMeans(f, cfg, c, size);
    UintMeans(f.rem, c, f.adr / 8);
  }

  lemma FarMeans(f: Frame, cfg: Config, c: Core, op: Operand, from: Read)
    requires Reads(f, cfg, c, from) && !DecodeFar(f.rem, c, op).0.end
    ensures var (d, r) := DecodeFar(f.rem, c, op);
            IsFar(f, r, from.upTo) && Reads(f, cfg, d, from.(upTo := from.upTo + if f.opr == 16 then 4 else 6))
  {
    var n := if f.opr == 16 then 2 else 4;
    UintMeans(f.rem, c, n);
    UintMeans(f.rem, Uint(f.rem, c, n).0, 2);
  }

  /** Operands that the opcode says. */
  lemma ImpliedMeans(f: Frame, cfg: Config, c: Core, op: Operand, spec: OperandSpec, from: Read)
    requires Modes(f, cfg, c) && InDictionary(spec) && op == CLEARED.(code := spec.code)
    requires !IsRmCode(spec.code) && !IsRegCode(spec.code) && !IsInlineCode(spec.code)
    requires !c.insn.err && !DecodeImpliedOperand(cfg, c, op, spec).0.insn.err
    ensures var (d, r) := DecodeImpliedOperand(cfg, c, op, spec);
            Is(f, spec, r, from.upTo) && d == c && ReadOn(f, spec, from) == from
  {
    if spec.code.OpRn? {
      OpcodeRegMeans(f, cfg, c, op, spec, from);
    } else if spec.code.Fixed? {
      FixedRegMeans(f, cfg, c, op, spec, from);
    } else {
      OtherMeans(f, cfg, c, op, spec, from);
    }
  }

  lemma OpcodeRegMeans(f: Frame, cfg: Config, c: Core, op: Operand, spec: OperandSpec, from: Read)
    requires Modes(f, cfg, c) && InDictionary(spec) && spec.code.OpRn? && !c.insn.err
    ensures var (d, r) := DecodeImpliedOperand(cfg, c, op, spec);
            Is(f, spec, r, from.upTo) && d == c && ReadOn(f, spec, from) == from
  {
    assert RexB(c.insn.rex) * 8 + spec.code.reg == Extended(spec.code.reg, f.b);
    RegMeans(f, cfg, c, op, GprClass, Extended(spec.code.reg, f.b), spec.size);
  }

  lemma FixedRegMeans(f: Frame, cfg: Config, c: Core, op: Operand, spec: OperandSpec, from: Read)
    requires Modes(f, cfg, c) && InDictionary(spec) && spec.code.Fixed? && !c.insn.err
    ensures var (d, r) := DecodeImpliedOperand(cfg, c, op, spec);
            Is(f, spec, r, from.upTo) && d == c && ReadOn(f, spec, from) == from
  {
    RegMeans(f, cfg, c, op, GprClass, spec.code.num, spec.size);
  }

  lemma OtherMeans(f: Frame, cfg: Config, c: Core, op: Operand, spec: OperandSpec, from: Read)
    requires cfg.mode == f.mode && op == CLEARED.(code := spec.code) && !spec.code.OpRn? && !spec.code.Fixed?
    requires !IsRmCode(spec.code) && !IsRegCode(spec.code) && !IsInlineCode(spec.code)
    requires !c.insn.err && !DecodeImpliedOperand(cfg, c, op, spec).0.insn.err
    ensures var (d, r) := DecodeImpliedOperand(cfg, c, op, spec);
            Is(f, spec, r, from.upTo) && d == c && ReadOn(f, spec, from) == from
  {
  }

  // ----- All operands ------------------------------------------------------------------------------------------

  /** An operand may be decoded here. */
  predicate MayDecode(f: Frame, spec: OperandSpec, from: Read) {
    && InDictionary(spec)
    && (OperandEncoding.RmFile(spec.code).Some? ==> AtModrm(f, from))
    && (OperandEncoding.RegFile(spec.code).Some? ==> BeforeModrm(f, from))
  }

  /** It is what its description says, and leaves the decoder behind its bytes. */
  lemma OperandMeans(f: Frame, cfg: Config, c: Core, spec: OperandSpec, from: Read)
    requires Reads(f, cfg, c, from) && ModesFit(f) && MayDecode(f, spec, from)
    requires var d := DecodeOperand(f.rem, cfg, c, spec).0; !d.end && !d.insn.err
    ensures var (d, r) := DecodeOperand(f.rem, cfg, c, spec);
            && Is(f, spec, r, from.upTo)
            && (OperandEncoding.RmFile(spec.code).None? || RightForm(f) ==> Reads(f, cfg, d, ReadOn(f, spec, from)))
  {
    var op := CLEARED.(code := spec.code);
    if IsRmCode(spec.code) {
      RmMeans(f, cfg, c, op, spec, from);
    } else if IsRegCode(spec.code) {
      RegFieldMeans(f, cfg, c, op, spec, from);
    } else if IsInlineCode(spec.code) {
      InlineMeans(f, cfg, c, op, spec, from);
    } else {
      ImpliedMeans(f, cfg, c, op, spec, from);
    }
  }

  /** Nothing that is read by position comes before. */
  predicate Early(f: Frame, from: Read) { AtModrm(f, from) && BeforeModrm(f, from) }

  /** What is read up to an operand lets the next one be decoded. */
  lemma MayGoOn(f: Frame, spec: OperandSpec, next: OperandSpec, from: Read)
    requires MayDecode(f, spec, from) && InDictionary(next) && Early(f, from)
    requires Inline(spec.code) ==> !FromModrm(next)
    requires OperandEncoding.RmFile(spec.code).Some? ==> OperandEncoding.RmFile(next.code).None?
    ensures MayDecode(f, next, ReadOn(f, spec, from))
    ensures OperandEncoding.RmFile(spec.code).None? && !Inline(spec.code) ==> Early(f, ReadOn(f, spec, from))
  {
  }

  lemma OrderFits(f: Frame, e: Entry, from: Read)
    requires RowInOrder(e) && Early(f, from)
    ensures MayDecode(f, e.operand1, from) && MayDecode(f, e.operand2, ReadOn(f, e.operand1, from))
    ensures MayDecode(f, e.operand3, ReadOn(f, e.operand2, ReadOn(f, e.operand1, from)))
  {
    MayGoOn(f, e.operand1, e.operand2, from);
    var second := ReadOn(f, e.operand1, from);
    if OperandEncoding.RmFile(e.operand1.code).None? && !Inline(e.operand1.code) {
      MayGoOn(f, e.operand2, e.operand3, second);
    }
  }

  /** The decoder after each operand. */
  function First(rem: seq<byte>, cfg: Config, c: Core, spec: OperandSpec): Core {
    var (d, op) := DecodeOperand(rem, cfg, c, spec);
    d.(insn := d.insn.(op0 := op))
  }

  function Second(rem: seq<byte>, cfg: Config, c: Core, spec: OperandSpec): Core {
    var (d, op) := DecodeOperand(rem, cfg, c, spec);
    d.(insn := d.insn.(op1 := op))
  }

  function Third(rem: seq<byte>, cfg: Config, c: Core, spec: OperandSpec): Core {
    var (d, op) := DecodeOperand(rem, cfg, c, spec);
    d.(insn := d.insn.(op2 := op))
  }

  lemma ThreeSteps(rem: seq<byte>, cfg: Config, c: Core, e: Entry) returns (a: Core, b: Core, d: Core)
    ensures a == First(rem, cfg, c, e.operand1) && b == Second(rem, cfg, a, e.operand2)
    ensures d == Third(rem, cfg, b, e.operand3) && DecodeOperands(rem, cfg, c, e) == d
    ensures d.insn.op0 == a.insn.op0 && d.insn.op1 == b.insn.op1
    ensures !d.end && !d.insn.err ==> !a.end && !a.insn.err && !b.end && !b.insn.err
  {
    a := First(rem, cfg, c, e.operand1);
    b := Second(rem, cfg, a, e.operand2);
    d := Third(rem, cfg, b, e.operand3);
  }

  /** It can be told where the decoder is behind the operand. */
  predicate Told(f: Frame, spec: OperandSpec) { OperandEncoding.RmFile(spec.code).None? || RightForm(f) }

  lemma FirstMeans(f: Frame, cfg: Config, c: Core, spec: OperandSpec, from: Read)
    requires Reads(f, cfg, c, from) && ModesFit(f) && MayDecode(f, spec, from)
    requires var d := First(f.rem, cfg, c, spec); !d.end && !d.insn.err
    ensures var d := First(f.rem, cfg, c, spec);
            Is(f, spec, d.insn.op0, from.upTo) && (Told(f, spec) ==> Reads(f, cfg, d, ReadOn(f, spec, from)))
  {
    OperandMeans(f, cfg, c, spec, from);
  }

  lemma SecondMeans(f: Frame, cfg: Config, c: Core, spec: OperandSpec, from: Read)
    requires Reads(f, cfg, c, from) && ModesFit(f) && MayDecode(f, spec, from)
    requires var d := Second(f.rem, cfg, c, spec); !d.end && !d.insn.err
    ensures var d := Second(f.rem, cfg, c, spec);
            Is(f, spec, d.insn.op1, from.upTo) && (Told(f, spec) ==> Reads(f, cfg, d, ReadOn(f, spec, from)))
  {
    OperandMeans(f, cfg, c, spec, from);
  }

  lemma ThirdMeans(f: Frame, cfg: Config, c: Core, spec: OperandSpec, from: Read)
    requires Reads(f, cfg, c, from) && ModesFit(f) && MayDecode(f, spec, from)
    requires var d := Third(f.rem, cfg, c, spec); !d.end && !d.insn.err
    ensures var d := Third(f.rem, cfg, c, spec);
            Is(f, spec, d.insn.op2, from.upTo) && (Told(f, spec) ==> Reads(f, cfg, d, ReadOn(f, spec, from)))
  {
    OperandMeans(f, cfg, c, spec, from);
  }

  /** The operands of a row are what its descriptions say of the bytes, and end where the instruction does, if
      the decoder can tell the address; the r/m operand is in any case. */
  lemma OperandsMean(f: Frame, cfg: Config, c: Core, e: Entry, from: Read)
    requires Reads(f, cfg, c, from) && ModesFit(f) && RowInOrder(e) && Early(f, from)
    requires var d := DecodeOperands(f.rem, cfg, c, e); !d.end && !d.insn.err
    ensures var d := DecodeOperands(f.rem, cfg, c, e);
            && RmAre(f, e, d.insn)
            && ((MemoryRow(f, e) ==> Addressable(f)) ==>
                  AllAre(f, e, d.insn, from) && d.ctr == ReadAll(f, e, from).upTo)
  {
    OrderFits(f, e, from);
    var a, b, d := ThreeSteps(f.rem, cfg, c, e);
    FirstMeans(f, cfg, c, e.operand1, from);
    if Told(f, e.operand1) {
      var second := ReadOn(f, e.operand1, from);
      SecondMeans(f, cfg, a, e.operand2, second);
      if Told(f, e.operand2) {
        ThirdMeans(f, cfg, b, e.operand3, ReadOn(f, e.operand2, second));
      }
    }
  }
}
