/** Decoding one instruction with the generated tables (decode.c). */
module Decoder {
  import opened Bytes
  import opened Itab
  import opened OpcodeTrie
  import opened OpcodeTables
  import opened TableGenerator
  import opened DecoderState
  import opened Operands

  const MAX_INSN_LENGTH: nat := 15

  // ----- Prefixes -------------------------------------------------------------

  predicate IsRex(cfg: Config, b: byte) { cfg.mode == 64 && b / 16 == 4 }

  function SegPrefix(b: byte): Option<Register> {
    if b == 0x2E then Some(Seg(1))
    else if b == 0x36 then Some(Seg(2))
    else if b == 0x3E then Some(Seg(3))
    else if b == 0x26 then Some(Seg(0))
    else if b == 0x64 then Some(Seg(4))
    else if b == 0x65 then Some(Seg(5))
    else None
  }

  /** Record a legacy prefix; None when the byte is not one. */
  function WithPrefix(insn: Instr, b: byte): (r: Option<Instr>)
    ensures r.Some? ==> r.value.err == insn.err && r.value.op0 == insn.op0 && r.value.op1 == insn.op1 &&
                        r.value.op2 == insn.op2
  {
    if SegPrefix(b).Some? then Some(insn.(seg := SegPrefix(b).value))
    else if b == 0x67 then Some(insn.(adr := 0x67))
    else if b == 0xF0 then Some(insn.(lock := 0xF0))
    else if b == 0x66 then Some(insn.(opr := 0x66))
    else if b == 0xF2 then Some(insn.(str := 0xF2))
    else if b == 0xF3 then Some(insn.(str := 0xF3))
    else None
  }

  function NotePrefix(c: Core, b: byte): (r: Option<Core>)
    ensures r.Some? ==> SameReading(c, r.value) && SameOperands(c, r.value) && r.value.insn.err == c.insn.err
  {
    match WithPrefix(c.insn, b)
    case Some(insn) => Some(c.(insn := insn))
    case None => None
  }

  /** decode_prefixes, from the point where `last` was the byte before. */
  function DecodePrefixes(rem: seq<byte>, cfg: Config, c: Core, last: byte): (r: Core)
    requires c.ctr < MAX_INSN_LENGTH
    ensures Advances(rem, c, r, MAX_INSN_LENGTH) && r.ctr <= MAX_INSN_LENGTH
    ensures !r.insn.err ==> 0 < r.ctr < MAX_INSN_LENGTH
    ensures r.modrm == c.modrm
    decreases MAX_INSN_LENGTH - c.ctr
  {
    var (c1, b) := Next(rem, c);
    if c1.insn.err then c1
    else if c1.ctr == MAX_INSN_LENGTH then Fail(c1)
    else
      match NotePrefix(c1, b)
      case Some(c2) => DecodePrefixes(rem, cfg, c2, b)
      case None =>
        if IsRex(cfg, b) then DecodePrefixes(rem, cfg, c1, b)
        else if IsRex(cfg, last) then c1.(insn := c1.insn.(rex := last))
        else c1
  }

  // ----- One table row ----------------------------------------------------------

  /** No byte is read between the two. */
  predicate SameReading(c: Core, d: Core) {
    d.ctr == c.ctr && d.end == c.end && d.modrm == c.modrm && (c.insn.err ==> d.insn.err)
  }

  predicate SameOperands(c: Core, d: Core) {
    d.insn.op0 == c.insn.op0 && d.insn.op1 == c.insn.op1 && d.insn.op2 == c.insn.op2
  }

  /** resolve_pfx_str. */
  function ResolveStr(c: Core, p: PrefixBits): (r: Core)
    ensures SameReading(c, r) && SameOperands(c, r)
  {
    if c.insn.str == 0xF3 then (if p.str then c.(insn := c.insn.(rep := 0xF3)) else c.(insn := c.insn.(repe := 0xF3)))
    else if c.insn.str == 0xF2 then c.(insn := c.insn.(repne := 0xF3))
    else c
  }

  /** The REX bits an instruction is declared to use. */
  function EffectiveRex(rex: byte, p: PrefixBits): byte {
    ((rex / 64) % 2) * 64
    + (if p.rexw then 8 * RexW(rex) else 0) + (if p.rexr then 4 * RexR(rex) else 0)
    + (if p.rexx then 2 * RexX(rex) else 0) + (if p.rexb then RexB(rex) else 0)
  }

  /** resolve_mode; None when the instruction is refused. */
  function ResolveMode(cfg: Config, c: Core, p: PrefixBits): (r: Option<Core>)
    ensures r.Some? ==> SameReading(c, r.value) && SameOperands(c, r.value)
    ensures r.Some? ==> (r.value.oprMode == 16 || r.value.oprMode == 32 || r.value.oprMode == 64)
    ensures r.Some? ==> (r.value.adrMode == 16 || r.value.adrMode == 32 || r.value.adrMode == 64)
  {
    if c.insn.err then None
    else if cfg.mode == 64 then
      if p.inv64 then None
      else
        var rex := EffectiveRex(c.insn.rex, p);
        Some(c.(insn := c.insn.(rex := rex),
                oprMode := if RexW(rex) == 1 then 64 else if c.insn.opr != 0 then 16 else if p.def64 then 64 else 32,
                adrMode := if c.insn.adr != 0 then 32 else 64))
    else if cfg.mode == 32 then
      Some(c.(oprMode := if c.insn.opr != 0 then 16 else 32, adrMode := if c.insn.adr != 0 then 16 else 32))
    else
      Some(c.(oprMode := if c.insn.opr != 0 then 32 else 16, adrMode := if c.insn.adr != 0 then 32 else 16))
  }

  predicate BothAccumulator(c: Core, r: Register) {
    c.insn.op0.ty == RegOp && c.insn.op0.base == r && c.insn.op1.ty == RegOp && c.insn.op1.base == r
  }

  /** resolve_mnemonic. */
  function ResolveMnemonic(cfg: Config, c: Core): (r: (Core, int))
    ensures SameReading(c, r.0)
  {
    if c.insn.mnemonic == Swapgs && cfg.mode != 64 then (Fail(c), -1)
    else
      var c1 := if c.insn.mnemonic == Xchg && (BothAccumulator(c, Gpr16(0)) || BothAccumulator(c, Gpr32(0)))
                then c.(insn := c.insn.(op0 := c.insn.op0.(ty := NoOperand),
                                        op1 := c.insn.op1.(ty := NoOperand), mnemonic := Nop))
                else c;
      var c2 := if c1.insn.mnemonic == Nop && c1.insn.repe != 0
                then c1.(insn := c1.insn.(repe := 0, mnemonic := Pause)) else c1;
      (c2, 0)
  }

  /** decode_insn before its operands: enter the row, then the prefixes' effects. */
  function EnterRow(cfg: Config, c: Core, e: Entry): (r: (Core, bool))
    ensures SameReading(c, r.0) && SameOperands(c, r.0)
    ensures r.1 ==> r.0.oprMode != 0 && r.0.adrMode != 0
    ensures !r.1 ==> r.0.insn.err
  {
    var c1 := ResolveStr(c.(insn := c.insn.(entry := Some(e), mnemonic := e.mnemonic)), e.prefix);
    match ResolveMode(cfg, c1, e.prefix)
    case None => (Fail(c1), false)
    case Some(c2) => (c2, true)
  }

  /** decode_insn on a row of the instruction table. */
  function DecodeInsn(rem: seq<byte>, cfg: Config, c: Core, e: Entry): (r: (Core, int))
    ensures Advances(rem, c, r.0, 24)
  {
    var (c1, ok) := EnterRow(cfg, c, e);
    if !ok then (c1, -1) else ResolveMnemonic(cfg, DecodeOperands(rem, cfg, c1, e))
  }

  /** What a walk through the tables ends at: an instruction table row, or a 3DNow table
      given by the row of its entry 0x0c and the mnemonics of all its entries. */
  datatype Target = Row(entry: Entry) | Now(sample: Entry, names: seq<Mnemonic>)

  /** decode_insn, or decode_3dnow: the operands first, then the byte that names the instruction. */
  function Execute(rem: seq<byte>, cfg: Config, c: Core, t: Target): (r: (Core, int))
    ensures Advances(rem, c, r.0, 25)
  {
    match t
    case Row(e) => DecodeInsn(rem, cfg, c, e)
    case Now(sample, names) =>
      NameInsn(rem, DecodeInsn(rem, cfg, c, sample).0, names)
  }

  /** The last byte of a 3DNow instruction. */
  function NameInsn(rem: seq<byte>, c: Core, names: seq<Mnemonic>): (r: (Core, int))
    ensures Advances(rem, c, r.0, 1)
  {
    var c1 := Next(rem, c).0;
    if c1.insn.err then (c1, -1)
    else (c1.(insn := c1.insn.(mnemonic := if c1.curr < |names| then names[c1.curr] else Invalid)), 0)
  }

  // ----- Opcode extensions ------------------------------------------------------

  /** eff_opr_mode and eff_adr_mode. */
  function EffOprMode(mode: DisMode, rexW: nat, opr: byte): nat {
    if mode == 64 then (if rexW == 1 then 64 else if opr != 0 then 16 else 32)
    else if mode == 32 then (if opr != 0 then 16 else 32)
    else (if opr != 0 then 32 else 16)
  }

  function EffAdrMode(mode: DisMode, adr: byte): nat {
    if mode == 64 then (if adr != 0 then 32 else 64)
    else if mode == 32 then (if adr != 0 then 16 else 32)
    else (if adr != 0 then 32 else 16)
  }

  /** The string prefix takes precedence over the operand-size prefix. */
  function SseByte(c: Core): byte { if c.insn.str != 0 then c.insn.str else c.insn.opr }

  function SseIndex(c: Core): (i: nat)
    ensures i <= 8
  {
    (SseByte(c) % 16 + 1) / 2
  }

  /** The entry whose presence influences the choice at a table of this kind. */
  function Probe(kind: TableKind, c: Core): nat {
    if kind == Sse then SseIndex(c) else 0
  }

  /** An x87 table is entered only with a ModRM byte already known to be a register form. */
  predicate MayEnter(kind: TableKind, c: Core) {
    && kind != OpcTbl
    && (kind == X87 ==> c.modrm.Some? && c.modrm.value >= 0xC0)
    && (c.insn.str == 0 || c.insn.str == 0xF2 || c.insn.str == 0xF3) && (c.insn.opr == 0 || c.insn.opr == 0x66)
  }

  /** The index decode_ext and decode_ssepfx choose at a table, and the state after choosing;
      `present` says whether the probed entry exists. */
  function Choose(rem: seq<byte>, cfg: Config, c: Core, kind: TableKind, present: bool): (r: (Core, nat))
    requires MayEnter(kind, c) && kind != ThreeDNow
    ensures r.1 < SizeOf(kind) && Advances(rem, c, r.0, 0)
    ensures r.0.insn.str == c.insn.str || r.0.insn.str == 0
    ensures r.0.insn.opr == c.insn.opr || r.0.insn.opr == 0
    ensures kind == Mod && r.1 == 1 ==> r.0.modrm.Some? && r.0.modrm.value >= 0xC0
    ensures SameOperands(c, r.0)
  {
    match kind
    case Mode => (c, if cfg.mode != 64 then 0 else 1)
    case OSize => (c, EffOprMode(cfg.mode, RexW(c.insn.rex), c.insn.opr) / 32)
    case ASize => (c, EffAdrMode(cfg.mode, c.insn.adr) / 32)
    case Vendor =>
      (c, if cfg.vendor == AnyVendor then (if present then 0 else 1) else if cfg.vendor == Amd then 0 else 1)
    case Sse =>
      if SseIndex(c) != 0 && present
      then (c.(insn := c.insn.(str := 0, opr := if SseByte(c) == 0x66 then 0 else c.insn.opr)), SseIndex(c))
      else (c, 0)
    case Mod => var (c1, m) := Modrm(rem, c); (c1, (ModOf(m) + 1) / 4)
    case X87 => (c, c.modrm.value - 0xC0)
    case Reg => var (c1, m) := Modrm(rem, c); (c1, RegOf(m))
    case Rm => var (c1, m) := Modrm(rem, c); (c1, RmOf(m))
  }

  // ----- Walking the flat tables -------------------------------------------------

  predicate IsGroup(ptr: nat) { ptr >= GROUP_BIT }

  /** What decode_opcode and decode_ext rely on at entry `i` of table `g`. */
  ghost predicate WfEntry(flat: Flat, g: nat, i: nat, ptr: nat)
    requires g < |flat.tables|
  {
    if IsGroup(ptr) then
      && g < ptr - GROUP_BIT < |flat.tables|
      && MayFollow(Step(flat.tables[g].kind, i), Step(flat.tables[ptr - GROUP_BIT].kind, 0))
    else ptr < |flat.itab|
  }

  ghost predicate WfTable(flat: Flat, g: nat)
    requires g < |flat.tables|
  {
    && |flat.tables[g].row| == SizeOf(flat.tables[g].kind)
    && forall i :: 0 <= i < |flat.tables[g].row| ==> WfEntry(flat, g, i, flat.tables[g].row[i])
  }

  ghost predicate WfFlat(flat: Flat) {
    && flat.tables != [] && flat.tables[0].kind == OpcTbl && flat.itab != []
    && forall g :: 0 <= g < |flat.tables| ==> WfTable(flat, g)
  }

  ghost predicate ValidPtr(flat: Flat, c: Core, ptr: nat) {
    if IsGroup(ptr)
    then ptr - GROUP_BIT < |flat.tables| && MayEnter(flat.tables[ptr - GROUP_BIT].kind, c)
    else ptr < |flat.itab|
  }

  /** How much of the table list lies ahead. */
  function Ahead(flat: Flat, ptr: nat): nat {
    if GROUP_BIT <= ptr < GROUP_BIT + |flat.tables| then GROUP_BIT + |flat.tables| - ptr else 0
  }

  /** One step of decode_ext at table `g`: the state after choosing and the chosen entry.
      The entry is a row of the instruction table or a table with a larger number. */
  ghost function ExtStep(flat: Flat, rem: seq<byte>, cfg: Config, c: Core, g: nat): (r: (Core, nat))
    requires WfFlat(flat) && g < |flat.tables|
    requires MayEnter(flat.tables[g].kind, c) && flat.tables[g].kind != ThreeDNow
    ensures Advances(rem, c, r.0, 0)
    ensures ValidPtr(flat, r.0, r.1) && Ahead(flat, r.1) < Ahead(flat, GROUP_BIT + g)
    ensures SameOperands(c, r.0)
  {
    var le := flat.tables[g];
    assert WfTable(flat, g);
    var present := Probe(le.kind, c) < |le.row| && le.row[Probe(le.kind, c)] != 0;
    var (c1, idx) := Choose(rem, cfg, c, le.kind, present);
    assert WfEntry(flat, g, idx, le.row[idx]);
    (c1, le.row[idx])
  }

  /** The instruction table row that entry `b` of a 3DNow table names. */
  ghost function Row3dnow(flat: Flat, g: nat, b: nat): Entry
    requires WfFlat(flat) && g < |flat.tables| && flat.tables[g].kind == ThreeDNow && b < 256
  {
    assert WfTable(flat, g);
    assert WfEntry(flat, g, b, flat.tables[g].row[b]);
    flat.itab[flat.tables[g].row[b]]
  }

  ghost function Target3dnow(flat: Flat, g: nat): Target
    requires WfFlat(flat) && g < |flat.tables| && flat.tables[g].kind == ThreeDNow
  {
    Now(Row3dnow(flat, g, 0x0c), seq(256, b requires 0 <= b < 256 => Row3dnow(flat, g, b).mnemonic))
  }

  /** Where a walk may end: a row of the instruction table or a 3DNow table. */
  ghost predicate IsLeaf(flat: Flat, ptr: nat) {
    if IsGroup(ptr) then ptr - GROUP_BIT < |flat.tables| && flat.tables[ptr - GROUP_BIT].kind == ThreeDNow
    else ptr < |flat.itab|
  }

  ghost function TargetAt(flat: Flat, ptr: nat): Target
    requires WfFlat(flat) && IsLeaf(flat, ptr)
  {
    if IsGroup(ptr) then Target3dnow(flat, ptr - GROUP_BIT) else Row(flat.itab[ptr])
  }

  /** The walk of decode_ext.  Child groups have larger numbers, so it ends. */
  ghost function WalkExt(flat: Flat, rem: seq<byte>, cfg: Config, c: Core, ptr: nat): (r: (Core, Target))
    requires WfFlat(flat) && ValidPtr(flat, c, ptr)
    ensures Advances(rem, c, r.0, 0)
    decreases Ahead(flat, ptr)
  {
    if IsLeaf(flat, ptr) then (c, TargetAt(flat, ptr))
    else
      var (c1, next) := ExtStep(flat, rem, cfg, c, ptr - GROUP_BIT);
      WalkExt(flat, rem, cfg, c1, next)
  }

  lemma FlatGoesOn(flat: Flat, rem: seq<byte>, cfg: Config, c: Core, g: nat)
    requires WfFlat(flat) && ValidPtr(flat, c, GROUP_BIT + g) && flat.tables[g].kind != ThreeDNow
    ensures var (c1, next) := ExtStep(flat, rem, cfg, c, g);
            WalkExt(flat, rem, cfg, c, GROUP_BIT + g) == WalkExt(flat, rem, cfg, c1, next)
  {
  }

  ghost predicate Entering(c: Core) {
    && c.modrm.None? && c.insn.op0 == CLEARED && c.insn.op1 == CLEARED && c.insn.op2 == CLEARED
    && (c.insn.str == 0 || c.insn.str == 0xF2 || c.insn.str == 0xF3) && (c.insn.opr == 0 || c.insn.opr == 0x66)
  }

  /** The entry of opcode table `g` for a byte. */
  ghost function EntryFor(flat: Flat, g: nat, b: byte): (ptr: nat)
    requires WfFlat(flat) && g < |flat.tables| && flat.tables[g].kind == OpcTbl
    ensures NextOpcodeTable(flat, ptr) ==> g < ptr - GROUP_BIT
    ensures IsGroup(ptr) ==> ptr - GROUP_BIT < |flat.tables|
    ensures !IsGroup(ptr) ==> ptr < |flat.itab|
  {
    assert WfTable(flat, g);
    assert WfEntry(flat, g, b, flat.tables[g].row[b]);
    flat.tables[g].row[b]
  }

  /** The entry for the current byte. */
  ghost function OpcodeEntry(flat: Flat, c: Core, g: nat): (ptr: nat)
    requires WfFlat(flat) && g < |flat.tables| && flat.tables[g].kind == OpcTbl && Entering(c)
    ensures !NextOpcodeTable(flat, ptr) ==> ValidPtr(flat, c, ptr)
    ensures ptr == EntryFor(flat, g, c.curr)
  {
    assert WfTable(flat, g);
    assert WfEntry(flat, g, c.curr, flat.tables[g].row[c.curr]);
    EntryFor(flat, g, c.curr)
  }

  predicate NextOpcodeTable(flat: Flat, ptr: nat) {
    IsGroup(ptr) && ptr - GROUP_BIT < |flat.tables| && flat.tables[ptr - GROUP_BIT].kind == OpcTbl
  }

  /** The walk of decode_opcode from opcode table `g`; None when an error stops it. */
  ghost function WalkOpcode(flat: Flat, rem: seq<byte>, cfg: Config, c: Core, g: nat): (r: (Core, Option<Target>))
    requires WfFlat(flat) && g < |flat.tables| && flat.tables[g].kind == OpcTbl && Entering(c)
    ensures Advances(rem, c, r.0, |flat.tables| - g)
    decreases |flat.tables| - g
  {
    if c.insn.err then (c, None)
    else
      var c1 := c.(primary := Some(c.curr));
      var ptr := OpcodeEntry(flat, c, g);
      if NextOpcodeTable(flat, ptr)
      then WalkOpcode(flat, rem, cfg, Next(rem, c1).0, ptr - GROUP_BIT)
      else
        var (c2, t) := WalkExt(flat, rem, cfg, c1, ptr);
        (c2, Some(t))
  }

  // ----- ud_decode -----------------------------------------------------------------

  function ClearInsn(c: Core): Core {
    FRESH.(ctr := c.ctr, end := c.end, curr := c.curr, primary := c.primary)
  }

  /** The tail of ud_decode: an error leaves the invalid instruction, and a stray segment
      override is dropped. */
  function Finish(invalid: Entry, c: Core, ret: int): (r: Core)
    ensures r.ctr == c.ctr && r.end == c.end && !r.insn.err
  {
    var failed := ret == -1 || c.insn.err;
    var c1 := if failed
              then ClearInsn(c).(insn := NO_INSN.(entry := Some(invalid), mnemonic := invalid.mnemonic))
              else c;
    var e := if c1.insn.entry.Some? then c1.insn.entry.value else invalid;
    if !e.prefix.seg && c1.insn.op0.ty != MemOp && c1.insn.op1.ty != MemOp
    then c1.(insn := c1.insn.(seg := NoReg))
    else c1
  }

  lemma {:induction false} PrefixesEntering(rem: seq<byte>, cfg: Config, c: Core, last: byte)
    requires c.ctr < MAX_INSN_LENGTH && Entering(c)
    ensures Entering(DecodePrefixes(rem, cfg, c, last))
    decreases MAX_INSN_LENGTH - c.ctr
  {
    var (c1, b) := Next(rem, c);
    if !c1.insn.err && c1.ctr != MAX_INSN_LENGTH {
      match NotePrefix(c1, b)
      case Some(c2) => PrefixesEntering(rem, cfg, c2, b);
      case None => if IsRex(cfg, b) { PrefixesEntering(rem, cfg, c1, b); }
    }
  }

  /** Prefixes and tables: everything up to the instruction's own decoding. */
  ghost function Walk(flat: Flat, cfg: Config, rem: seq<byte>): (r: (Core, Option<Target>))
    requires WfFlat(flat)
  {
    PrefixesEntering(rem, cfg, FRESH, 0);
    WalkOpcode(flat, rem, cfg, DecodePrefixes(rem, cfg, FRESH, 0), 0)
  }

  /** The state and return code once the target has been decoded. */
  function Arrive(rem: seq<byte>, cfg: Config, c: Core, t: Option<Target>): (r: (Core, int))
    ensures Advances(rem, c, r.0, 25)
  {
    match t
    case None => (c, 1)
    case Some(target) => Execute(rem, cfg, c, target)
  }

  /** ud_decode on the input `rem`, starting from a cleared instruction. */
  ghost function Decode(flat: Flat, cfg: Config, rem: seq<byte>): (r: Core)
    requires WfFlat(flat)
  {
    var (c, t) := Walk(flat, cfg, rem);
    var (d, ret) := Arrive(rem, cfg, c, t);
    Finish(flat.itab[0], d, ret)
  }

  /** Decoding ends without an error. */
  ghost predicate Decodes(flat: Flat, cfg: Config, rem: seq<byte>)
    requires WfFlat(flat)
  {
    var (c, t) := Walk(flat, cfg, rem);
    var (d, ret) := Arrive(rem, cfg, c, t);
    ret != -1 && !d.insn.err
  }

  // ----- What a row gives to the instruction --------------------------------------------

  /** A row's name stays, except that an exchange of the accumulator with itself is a NOP and a repeated
      NOP a PAUSE. */
  predicate Named(row: Mnemonic, name: Mnemonic) {
    name == row || (row == Xchg && (name == Nop || name == Pause)) || (row == Nop && name == Pause)
  }

  lemma OperandsKeepRow(rem: seq<byte>, cfg: Config, c: Core, e: Entry)
    ensures DecodeOperands(rem, cfg, c, e).insn.entry == c.insn.entry
    ensures DecodeOperands(rem, cfg, c, e).insn.mnemonic == c.insn.mnemonic
  {
  }

  lemma RowEntered(cfg: Config, c: Core, e: Entry)
    ensures EnterRow(cfg, c, e).0.insn.entry == Some(e) && EnterRow(cfg, c, e).0.insn.mnemonic == e.mnemonic
  {
  }

  lemma MnemonicKeepsRow(cfg: Config, c: Core)
    ensures ResolveMnemonic(cfg, c).0.insn.entry == c.insn.entry
    ensures ResolveMnemonic(cfg, c).1 == 0 ==> Named(c.insn.mnemonic, ResolveMnemonic(cfg, c).0.insn.mnemonic)
  {
  }

  /** Decoding a row leaves that row, and on success its name. */
  lemma RowDecoded(rem: seq<byte>, cfg: Config, c: Core, e: Entry)
    ensures DecodeInsn(rem, cfg, c, e).0.insn.entry == Some(e)
    ensures DecodeInsn(rem, cfg, c, e).1 == 0 ==> Named(e.mnemonic, DecodeInsn(rem, cfg, c, e).0.insn.mnemonic)
  {
    RowEntered(cfg, c, e);
    var c1 := EnterRow(cfg, c, e).0;
    OperandsKeepRow(rem, cfg, c1, e);
    MnemonicKeepsRow(cfg, DecodeOperands(rem, cfg, c1, e));
  }

  /** What the target of the walk gives to the instruction that was decoded. */
  ghost predicate Shows(d: Core, t: Target) {
    match t
    case Row(e) => d.insn.entry == Some(e) && Named(e.mnemonic, d.insn.mnemonic)
    case Now(sample, names) => d.insn.entry == Some(sample) && (d.curr < |names| ==> d.insn.mnemonic == names[d.curr])
  }

  lemma TargetDecoded(rem: seq<byte>, cfg: Config, c: Core, t: Target)
    ensures var (d, ret) := Execute(rem, cfg, c, t); ret != -1 && !d.insn.err ==> Shows(d, t)
  {
    match t
    case Row(e) => RowDecoded(rem, cfg, c, e);
    case Now(sample, _) => RowDecoded(rem, cfg, c, sample);
  }

  /** A decoded instruction shows the target that the walk ended at; a failed one shows row 0. */
  lemma DecodeShows(flat: Flat, cfg: Config, rem: seq<byte>)
    requires WfFlat(flat) && Walk(flat, cfg, rem).1.Some?
    ensures Decodes(flat, cfg, rem) ==> Shows(Decode(flat, cfg, rem), Walk(flat, cfg, rem).1.value)
    ensures !Decodes(flat, cfg, rem) ==> Decode(flat, cfg, rem).insn.entry == Some(flat.itab[0])
    ensures !Decodes(flat, cfg, rem) ==> Decode(flat, cfg, rem).insn.mnemonic == flat.itab[0].mnemonic
  {
    var (c, t) := Walk(flat, cfg, rem);
    TargetDecoded(rem, cfg, c, t.value);
  }
}
