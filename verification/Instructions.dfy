/** From instruction definitions to decoded instructions, in terms of the input's bytes. */
module Instructions {
  import opened Bytes
  import opened Modular
  import opened Itab
  import opened OpcodeTrie
  import opened OpcodeTables
  import opened TableGenerator
  import opened DecoderState
  import opened Operands
  import opened Decoder
  import opened TableWalk
  import opened EndToEnd
  import opened Encoding
  import opened OperandEncoding
  import opened PathMeaning
  import opened OperandMeaning

  // ----- The definition that an input reaches ------------------------------------------------

  predicate SameForm(a: Form, b: Form) { a.opcodes == b.opcodes && a.vendor == b.vendor }

  /** Definition j is the last one of the form of definition k. */
  predicate LastLike(forms: seq<Form>, k: nat, j: nat) {
    && k < |forms| && j < |forms| && SameForm(forms[j], forms[k])
    && forall i :: j < i < |forms| ==> !SameForm(forms[i], forms[k])
  }

  predicate IsNow(form: Form) {
    && form.vendor.None? && form.opcodes != [] && form.opcodes[|form.opcodes| - 1].Extension?
    && form.opcodes[|form.opcodes| - 1].ext.ThreeDNowExt?
  }

  /** The target is the definition's row; at a 3DNow table its last extension's entry names it. */
  predicate Reaches(form: Form, e: Entry, t: Target) {
    if IsNow(form)
    then var n := form.opcodes[|form.opcodes| - 1].ext.n;
         t.Now? && |t.names| == 256 && (n < 256 ==> t.names[n] == e.mnemonic)
    else t == Row(e)
  }

  /** Paths have the same indices if and only if definitions have the same form. */
  lemma IndicesSame(items: seq<Item>, forms: seq<Form>, trie: Trie, j: nat, k: nat)
    requires j < |forms| && k < |forms| && Grown(items, forms, trie)
    requires Indices(StepsOfForm(forms[j])) == Indices(StepsOfForm(forms[k]))
    ensures SameForm(forms[j], forms[k])
  {
    var a, b := StepsOfForm(forms[j]), StepsOfForm(forms[k]);
    assert PathIn(items, forms, trie, j) && PathIn(items, forms, trie, k);
    assert |a| == |b|;
    assert Indices(a)[..|a|] == Indices(b)[..|a|];
    StepsAgree(trie, a, b, |a|);
    assert a[..|a|] == a && b[..|a|] == b;
    SameForms(forms[j], forms[k]);
  }

  lemma SameForms(a: Form, b: Form)
    requires StepsOfForm(a) == StepsOfForm(b)
    ensures SameForm(a, b)
  {
    PathFront(a);
    PathFront(b);
    if |a.opcodes| < |b.opcodes| {
      StepOfOpcode(b, |a.opcodes|);
    } else if |b.opcodes| < |a.opcodes| {
      StepOfOpcode(a, |b.opcodes|);
    } else {
      OpcodesFromSteps(a, b, |b.opcodes|);
      SameWhole(a.opcodes, b.opcodes, |b.opcodes|);
      if |StepsOfForm(a)| > |a.opcodes| {
        StepOfOpcode(a, |a.opcodes|);
        StepOfOpcode(b, |a.opcodes|);
      }
    }
  }

  /** The last item on a path. */
  lemma {:induction false} LastOnAt(items: seq<Item>, path: Path) returns (j: nat)
    requires LastOn(items, path).Some?
    ensures j < |items| && Indices(items[j].steps) == path && LastOn(items, path) == Some(items[j].entry)
    ensures forall i :: j < i < |items| ==> Indices(items[i].steps) != path
  {
    if Indices(items[|items| - 1].steps) == path {
      j := |items| - 1;
    } else {
      j := LastOnAt(items[..|items| - 1], path);
    }
  }

  lemma DefsGrown(defs: seq<InsnDef>, trie: Trie)
    requires BuiltFrom(ItemsOf(defs), trie)
    ensures Grown(ItemsOf(defs), FormsOf(defs), trie)
  {
    var items, forms := ItemsOf(defs), FormsOf(defs);
    forall j: nat | j < |forms|
      ensures PathIn(items, forms, trie, j)
    {
      assert Follows(trie, items[j].steps);
    }
  }

  lemma LastLikeIs(defs: seq<InsnDef>, trie: Trie, k: nat) returns (j: nat)
    requires k < |defs| && BuiltFrom(ItemsOf(defs), trie)
    ensures LastLike(FormsOf(defs), k, j)
    ensures LastOn(ItemsOf(defs), Indices(PathOf(defs[k]))) == Some(defs[j].entry)
  {
    var items, forms := ItemsOf(defs), FormsOf(defs);
    DefsGrown(defs, trie);
    LastOnOwn(items, k);
    j := LastOnAt(items, Indices(items[k].steps));
    IndicesSame(items, forms, trie, j, k);
    forall i | j < i < |forms|
      ensures !SameForm(forms[i], forms[k])
    {
      assert Indices(items[i].steps) != Indices(items[k].steps);
    }
  }

  // ----- Reached, matched --------------------------------------------------------------------------------

  /** The input is an instance of some definition. */
  ghost predicate MatchesAny(defs: seq<InsnDef>, rem: seq<byte>, cfg: Config) {
    exists k :: 0 <= k < |defs| && Encoding.Matches(FormsOf(defs), k, rem, cfg)
  }

  /** An input takes a definition's path if and only if it is an instance of the definition. */
  lemma MatchesPath(defs: seq<InsnDef>, flat: Flat, loc: map<Path, nat>, k: nat, cfg: Config, rem: seq<byte>)
    requires FlatOf(defs, flat, loc) && k < |defs|
    ensures EndToEnd.Matches(ItemsOf(defs), rem, cfg, PathOf(defs[k])) <==>
            Encoding.Matches(FormsOf(defs), k, rem, cfg)
    ensures Faithful(ItemsOf(defs), FormsOf(defs), k) && Proper(FormsOf(defs)[k])
  {
    var trie := FlatTrie(defs, flat, loc);
    DefsGrown(defs, trie);
    assert WellOrdered(ItemsOf(defs)[k].steps);
    GrownFaithful(ItemsOf(defs), FormsOf(defs), trie, k);
    FormProper(defs[k]);
    MatchesSame(ItemsOf(defs), FormsOf(defs), k, rem, cfg);
  }

  /** End to end: for every accepted sequence of sound definitions and every flat form of its trie, an input that
      is an instance of a definition is led to the last definition of the same form. */
  lemma DefinitionReached(defs: seq<InsnDef>, k: nat, flat: Flat, loc: map<Path, nat>, cfg: Config, rem: seq<byte>)
    returns (j: nat)
    requires FlatOf(defs, flat, loc) && k < |defs| && Encoding.Matches(FormsOf(defs), k, rem, cfg)
    ensures LastLike(FormsOf(defs), k, j) && WfFlat(flat)
    ensures var t := Walk(flat, cfg, rem).1; t.Some? && Reaches(FormOf(defs[k]), defs[j].entry, t.value)
  {
    MatchesPath(defs, flat, loc, k, cfg, rem);
    PathReached(defs, k, flat, loc, cfg, rem);
    var trie := FlatTrie(defs, flat, loc);
    j := LastLikeIs(defs, trie, k);
    NowPath(FormOf(defs[k]));
  }

  lemma NowPath(form: Form)
    requires StepsOfForm(form) != []
    ensures var last := StepsOfForm(form)[|StepsOfForm(form)| - 1];
            && (last.kind == ThreeDNow <==> IsNow(form))
            && (IsNow(form) ==> last.index == form.opcodes[|form.opcodes| - 1].ext.n)
  {
    PathFront(form);
    StepOfOpcode(form, |StepsOfForm(form)| - 1);
  }

  /** And the converse: the walk ends at a row other than row 0, or at a 3DNow table, if and only if the input is
      an instance of some definition; any other input is decoded as the invalid instruction. */
  lemma MatchedExactly(defs: seq<InsnDef>, flat: Flat, loc: map<Path, nat>, cfg: Config, rem: seq<byte>)
    requires FlatOf(defs, flat, loc)
    ensures WfFlat(flat)
    ensures WalkEnd(flat, cfg, rem).Some? && WalkEnd(flat, cfg, rem).value != 0 <==> MatchesAny(defs, rem, cfg)
    ensures !MatchesAny(defs, rem, cfg) ==> Decode(flat, cfg, rem).insn.entry == Some(INVALID_ENTRY)
  {
    PathMatched(defs, flat, loc, cfg, rem);
    forall k: nat | k < |defs|
      ensures EndToEnd.Matches(ItemsOf(defs), rem, cfg, ItemsOf(defs)[k].steps) <==>
              Encoding.Matches(FormsOf(defs), k, rem, cfg)
    {
      MatchesPath(defs, flat, loc, k, cfg, rem);
    }
  }

  // ----- What a row makes of the bytes -----------------------------------------------------------------------

  /** A REX prefix is there in 64-bit mode only. */
  predicate RexOk(g: Given, mode: ModeBits) { g.rex == 0 || (mode == 64 && 0x40 <= g.rex < 0x50) }

  lemma {:induction false} LeftOverRex(os: seq<Opc>, n: nat, g: Given)
    requires n <= |os|
    ensures LeftOver(os, n, g).rex == g.rex
    decreases |os| - n
  {
    if n < |os| && os[n].Extension? && !os[n].ext.ThreeDNowExt? {
      LeftOverRex(os, n + 1, Used(os[n].ext, g));
    }
  }

  /** The prefixes that the instruction shows: a string prefix is REP or REPE, as the row says, or REPNE. */
  predicate PrefixesShown(insn: Instr, g: Given, flags: PrefixBits) {
    && insn.lock == (if g.lock then 0xF0 else 0) && insn.opr == (if g.opr then 0x66 else 0)
    && insn.adr == (if g.adr then 0x67 else 0) && insn.str == g.str
    && insn.rep == (if g.str == 0xF3 && flags.str then 0xF3 else 0)
    && insn.repne == (if g.str == 0xF2 then 0xF3 else 0)
  }

  predicate Repeated(g: Given, flags: PrefixBits) { g.str == 0xF3 && !flags.str }

  /** Entering a row sets the sizes and keeps the REX bits that it declares. */
  lemma RowEnters(rem: seq<byte>, p: nat, cfg: Config, c: Core, g: Given, e: Entry)
    requires Holding(rem, p, c, g) && RexOk(g, cfg.mode) && EnterRow(cfg, c, e).1
    ensures var f, d := FrameOf(rem, p, cfg.mode, g, e.prefix), EnterRow(cfg, c, e).0;
            && ModesFit(f) && !c.insn.err && Reads(f, cfg, d, Read(c.modrm.Some?, c.ctr))
            && Early(f, Read(c.modrm.Some?, c.ctr))
            && PrefixesShown(d.insn, g, e.prefix) && d.insn.seg == SegmentOf(g.seg) && !d.insn.brFar
            && d.insn.repe == (if Repeated(g, e.prefix) then 0xF3 else 0)
  {
    var c1 := ResolveStr(c.(insn := c.insn.(entry := Some(e), mnemonic := e.mnemonic)), e.prefix);
    StrResolved(c, g, e);
    ModesSet(rem, p, cfg, c1, g, e.prefix);
  }

  lemma StrResolved(c: Core, g: Given, e: Entry)
    requires StringPrefix(g) && c.insn == GivenInsn(g).(err := c.insn.err)
    ensures var d := ResolveStr(c.(insn := c.insn.(entry := Some(e), mnemonic := e.mnemonic)), e.prefix);
            && PrefixesShown(d.insn, g, e.prefix) && d.insn.seg == SegmentOf(g.seg) && d.insn.rex == g.rex
            && d.insn.repe == (if Repeated(g, e.prefix) then 0xF3 else 0) && d == c.(insn := d.insn)
            && d.insn.err == c.insn.err && !d.insn.brFar
  {
  }

  /** The modes that are set, and what they leave alone. */
  lemma ModesSet(rem: seq<byte>, p: nat, cfg: Config, c: Core, g: Given, flags: PrefixBits)
    requires RexOk(g, cfg.mode) && c.insn.rex == g.rex && c.insn.opr == (if g.opr then 0x66 else 0)
    requires c.insn.adr == (if g.adr then 0x67 else 0) && ResolveMode(cfg, c, flags).Some?
    ensures var f, d := FrameOf(rem, p, cfg.mode, g, flags), ResolveMode(cfg, c, flags).value;
            && ModesFit(f) && Modes(f, cfg, d) && !c.insn.err
            && d == c.(insn := c.insn.(rex := d.insn.rex), oprMode := d.oprMode, adrMode := d.adrMode)
  {
    if cfg.mode == 64 {
      RexKept(g, flags);
      ModesSet64(rem, p, cfg, c, g, flags, EffectiveRex(g.rex, flags));
    } else {
      NoRex();
    }
  }

  lemma NoRex()
    ensures RexW(0) == RexR(0) == RexX(0) == RexB(0) == 0 && !BitW(0) && !BitR(0) && !BitX(0) && !BitB(0)
  {
  }

  lemma ModesSet64(rem: seq<byte>, p: nat, cfg: Config, c: Core, g: Given, flags: PrefixBits, rex: byte)
    requires cfg.mode == 64 && c.insn.rex == g.rex && c.insn.opr == (if g.opr then 0x66 else 0)
    requires c.insn.adr == (if g.adr then 0x67 else 0) && ResolveMode(cfg, c, flags).Some?
    requires rex == EffectiveRex(g.rex, flags) && (RexW(rex) == 1 <==> BitW(g.rex) && flags.rexw)
    requires RexR(rex) == 1 <==> BitR(g.rex) && flags.rexr
    requires RexX(rex) == 1 <==> BitX(g.rex) && flags.rexx
    requires RexB(rex) == 1 <==> BitB(g.rex) && flags.rexb
    requires rex != 0 <==> g.rex != 0
    ensures var f, d := FrameOf(rem, p, cfg.mode, g, flags), ResolveMode(cfg, c, flags).value;
            && ModesFit(f) && Modes(f, cfg, d) && !c.insn.err
            && d == c.(insn := c.insn.(rex := rex), oprMode := d.oprMode, adrMode := d.adrMode)
  {
  }

  lemma RexKept(g: Given, flags: PrefixBits)
    requires g.rex == 0 || 0x40 <= g.rex < 0x50
    ensures var rex := EffectiveRex(g.rex, flags);
            && (RexW(rex) == 1 <==> BitW(g.rex) && flags.rexw) && (RexR(rex) == 1 <==> BitR(g.rex) && flags.rexr)
            && (RexX(rex) == 1 <==> BitX(g.rex) && flags.rexx) && (RexB(rex) == 1 <==> BitB(g.rex) && flags.rexb)
            && (rex != 0 <==> g.rex != 0)
  {
    RexBits(if g.rex == 0 then 0 else 1, RexW(g.rex), RexR(g.rex), RexX(g.rex), RexB(g.rex), flags);
  }

  /** The bits of a REX byte put together. */
  lemma RexBits(top: nat, w: nat, r: nat, x: nat, b: nat, flags: PrefixBits)
    requires top <= 1 && w <= 1 && r <= 1 && x <= 1 && b <= 1
    ensures var rex := top * 64 + (if flags.rexw then 8 * w else 0) + (if flags.rexr then 4 * r else 0)
                       + (if flags.rexx then 2 * x else 0) + (if flags.rexb then b else 0);
            && rex < 0x80 && RexW(rex) == (if flags.rexw then w else 0) && RexR(rex) == (if flags.rexr then r else 0)
            && RexX(rex) == (if flags.rexx then x else 0) && RexB(rex) == (if flags.rexb then b else 0)
  {
  }

  /** An exchange of the accumulator with itself. */
  predicate Exchange(e: Entry, ops: Instr) {
    && e.mnemonic == Xchg && ops.op0.ty == RegOp && ops.op1.ty == RegOp && ops.op0.base == ops.op1.base
    && (ops.op0.base == Gpr16(0) || ops.op0.base == Gpr32(0))
  }

  /** It is called NOP, and with a repeat prefix a NOP is called PAUSE. */
  function NameOf(e: Entry, exchange: bool, repeated: bool): Mnemonic {
    var name := if exchange then Nop else e.mnemonic;
    if name == Nop && repeated then Pause else name
  }

  /** A NOP shows no operands. */
  predicate OperandsShown(insn: Instr, e: Entry, ops: Instr) {
    if Exchange(e, ops)
    then insn.op0.ty == NoOperand && insn.op1.ty == NoOperand && insn.op2 == ops.op2
    else insn.op0 == ops.op0 && insn.op1 == ops.op1 && insn.op2 == ops.op2
  }

  /** A far pointer in memory makes a far branch. */
  predicate FarRow(e: Entry) { e.operand1.code == OpF || e.operand2.code == OpF || e.operand3.code == OpF }

  lemma FarSet(rem: seq<byte>, cfg: Config, c: Core, spec: OperandSpec)
    ensures DecodeOperand(rem, cfg, c, spec).0.insn.brFar <==> c.insn.brFar || spec.code == OpF
  {
  }

  lemma FarRowSet(rem: seq<byte>, cfg: Config, c: Core, e: Entry)
    ensures DecodeOperands(rem, cfg, c, e).insn.brFar <==> c.insn.brFar || FarRow(e)
  {
    var (c0, op0) := DecodeOperand(rem, cfg, c, e.operand1);
    var c0' := c0.(insn := c0.insn.(op0 := op0));
    var (c1, op1) := DecodeOperand(rem, cfg, c0', e.operand2);
    FarSet(rem, cfg, c, e.operand1);
    FarSet(rem, cfg, c0', e.operand2);
    FarSet(rem, cfg, c1.(insn := c1.insn.(op1 := op1)), e.operand3);
  }

  /** Everything a decoded row shows of an instruction whose ModRM byte, if any, is at p. */
  ghost predicate RowShows(f: Frame, e: Entry, g: Given, from: Read, d: Core, ops: Instr) {
    && d.insn.entry == Some(e) && d.oprMode == f.opr && d.adrMode == f.adr && PrefixesShown(d.insn, g, e.prefix)
    && d.insn.mnemonic == NameOf(e, Exchange(e, ops), Repeated(g, e.prefix)) && OperandsShown(d.insn, e, ops)
    && RmAre(f, e, ops) && (d.insn.brFar <==> FarRow(e))
    && ((MemoryRow(f, e) ==> Addressable(f)) ==> AllAre(f, e, ops, from) && d.ctr == ReadAll(f, e, from).upTo)
  }

  lemma RowMeans(rem: seq<byte>, p: nat, cfg: Config, c: Core, g: Given, e: Entry) returns (ops: Instr)
    requires Holding(rem, p, c, g) && RexOk(g, cfg.mode) && RowInOrder(e)
    requires var (d, ret) := DecodeInsn(rem, cfg, c, e); ret != -1 && !d.insn.err
    ensures !c.insn.err
    ensures RowShows(FrameOf(rem, p, cfg.mode, g, e.prefix), e, g, Read(c.modrm.Some?, c.ctr),
                     DecodeInsn(rem, cfg, c, e).0, ops)
    ensures DecodeInsn(rem, cfg, c, e).0.insn.seg == SegmentOf(g.seg)
  {
    RowEnters(rem, p, cfg, c, g, e);
    RowEntered(cfg, c, e);
    var f, from := FrameOf(rem, p, cfg.mode, g, e.prefix), Read(c.modrm.Some?, c.ctr);
    var c1 := EnterRow(cfg, c, e).0;
    var d1 := DecodeOperands(rem, cfg, c1, e);
    NameErrors(cfg, d1);
    OperandsKeep(rem, cfg, c1, e);
    FarRowSet(rem, cfg, c1, e);
    OperandsMean(f, cfg, c1, e, from);
    ops := d1.insn;
    Renamed(cfg, d1, e, Repeated(g, e.prefix));
  }

  lemma NameErrors(cfg: Config, c: Core)
    ensures ResolveMnemonic(cfg, c).1 != -1 ==> ResolveMnemonic(cfg, c).0.insn.err == c.insn.err
  {
  }

  /** Decoding operands leaves the rest of the instruction alone. */
  lemma OperandsKeep(rem: seq<byte>, cfg: Config, c: Core, e: Entry)
    ensures var d := DecodeOperands(rem, cfg, c, e);
            && d.insn == c.insn.(err := d.insn.err, brFar := d.insn.brFar, op0 := d.insn.op0, op1 := d.insn.op1,
                                 op2 := d.insn.op2)
            && d.oprMode == c.oprMode && d.adrMode == c.adrMode && (d.end && !c.end ==> d.insn.err)
  {
  }

  lemma Renamed(cfg: Config, c: Core, e: Entry, repeated: bool)
    requires c.insn.mnemonic == e.mnemonic && c.insn.repe == (if repeated then 0xF3 else 0)
    requires ResolveMnemonic(cfg, c).1 != -1
    ensures var d := ResolveMnemonic(cfg, c).0;
            && d.insn.mnemonic == NameOf(e, Exchange(e, c.insn), repeated) && OperandsShown(d.insn, e, c.insn)
            && d.insn.entry == c.insn.entry && d.insn.seg == c.insn.seg && d.insn.brFar == c.insn.brFar
            && d.oprMode == c.oprMode && d.adrMode == c.adrMode && d.ctr == c.ctr
            && (forall g, flags :: PrefixesShown(c.insn, g, flags) ==> PrefixesShown(d.insn, g, flags))
  {
  }

  // ----- The whole instruction ---------------------------------------------------------------------------------

  /** The prefixes left to an instance of a form, and how far its extensions have read. */
  function GivenTo(form: Form, rem: seq<byte>, mode: ModeBits): Given
    requires Proper(form)
  {
    Remaining(form, rem, mode)
  }

  function StartsAt(form: Form, rem: seq<byte>, mode: ModeBits): Read
    requires Proper(form)
  {
    var at, modrm := Encoding.Behind(form, rem, mode), ReadsModrm(form.opcodes, form.plains);
    Read(modrm, if modrm then at + 1 else at)
  }

  /** The decoder with which an instance of a form reaches its target. */
  ghost predicate Arrived(form: Form, rem: seq<byte>, mode: ModeBits, c: Core)
    requires Proper(form)
  {
    && Holding(rem, Encoding.Behind(form, rem, mode), c, GivenTo(form, rem, mode))
    && RexOk(GivenTo(form, rem, mode), mode) && (c.modrm.Some? <==> ReadsModrm(form.opcodes, form.plains))
  }

  lemma PathArrives(items: seq<Item>, forms: seq<Form>, k: nat, cfg: Config, rem: seq<byte>)
    requires k < |forms| && Faithful(items, forms, k) && Proper(forms[k]) && Encoding.Matches(forms, k, rem, cfg)
    ensures EndToEnd.Matches(items, rem, cfg, StepsOfForm(forms[k]))
    ensures Arrived(forms[k], rem, cfg.mode, PathTaken(items, rem, cfg, StepsOfForm(forms[k])))
  {
    var q := PrefixCount(rem, cfg.mode);
    InstanceArrives(items, forms, k, cfg, rem, q, Said(rem[..q], cfg.mode));
    MatchesBegun(items, rem, cfg, StepsOfForm(forms[k]), q, Said(rem[..q], cfg.mode));
  }

  lemma InstanceArrives(items: seq<Item>, forms: seq<Form>, k: nat, cfg: Config, rem: seq<byte>, q: nat, g: Given)
    requires k < |forms| && Faithful(items, forms, k) && Proper(forms[k]) && Instance(forms, k, rem, cfg, q, g)
    requires q == PrefixCount(rem, cfg.mode) && g == Said(rem[..q], cfg.mode)
    ensures Started(items, rem, cfg, StepsOfForm(forms[k]), q, g)
    ensures Arrived(forms[k], rem, cfg.mode,
                    EndToEnd.Taken(items, rem, cfg, Begun(rem, q, g), StepsOfForm(forms[k]), 1))
  {
    InstanceHolds(items, forms, k, rem, cfg, g, q);
    BegunArrives(items, forms[k], cfg, rem, q, g);
  }

  lemma BegunArrives(items: seq<Item>, form: Form, cfg: Config, rem: seq<byte>, q: nat, g: Given)
    requires Proper(form) && q == PrefixCount(rem, cfg.mode) && g == Said(rem[..q], cfg.mode)
    requires Started(items, rem, cfg, StepsOfForm(form), q, g)
    requires Holding(rem, q + form.plains, EndToEnd.Taken(items, rem, cfg, Begun(rem, q, g), StepsOfForm(form), 1),
                     LeftOver(form.opcodes, form.plains, g))
    ensures Arrived(form, rem, cfg.mode, EndToEnd.Taken(items, rem, cfg, Begun(rem, q, g), StepsOfForm(form), 1))
  {
    LeftOverRex(form.opcodes, form.plains, g);
    BegunModrm(items, rem, cfg, form, q, g);
  }

  lemma TargetState(defs: seq<InsnDef>, k: nat, flat: Flat, loc: map<Path, nat>, cfg: Config, rem: seq<byte>)
    requires FlatOf(defs, flat, loc) && k < |defs| && Encoding.Matches(FormsOf(defs), k, rem, cfg)
    ensures WfFlat(flat) && Proper(FormOf(defs[k])) && Arrived(FormOf(defs[k]), rem, cfg.mode, Walk(flat, cfg, rem).0)
  {
    MatchesPath(defs, flat, loc, k, cfg, rem);
    PathReached(defs, k, flat, loc, cfg, rem);
    PathArrives(ItemsOf(defs), FormsOf(defs), k, cfg, rem);
  }

  lemma BegunModrm(items: seq<Item>, rem: seq<byte>, cfg: Config, form: Form, q: nat, g: Given)
    requires Proper(form) && Started(items, rem, cfg, StepsOfForm(form), q, g)
    ensures EndToEnd.Taken(items, rem, cfg, Begun(rem, q, g), StepsOfForm(form), 1).modrm.Some? <==>
            ReadsModrm(form.opcodes, form.plains)
  {
    PathFront(form);
    StepOfOpcode(form, 0);
    ModrmTaken(items, rem, cfg, Begun(rem, q, g), StepsOfForm(form), 1);
    PlainsReadNothing(form, 1);
    StepsReadIs(form, form.plains);
  }

  lemma {:induction false} PlainsReadNothing(form: Form, n: nat)
    requires Proper(form) && n <= form.plains <= |StepsOfForm(form)|
    ensures StepsRead(StepsOfForm(form), n) <==> StepsRead(StepsOfForm(form), form.plains)
    decreases form.plains - n
  {
    if n < form.plains {
      StepOfOpcode(form, n);
      PlainsReadNothing(form, n + 1);
    }
  }

  /** What an instance of definition k is decoded to: the row `e`, and what that makes of the bytes. */
  ghost predicate DecodedAs(form: Form, e: Entry, rem: seq<byte>, mode: ModeBits, d: Core, ops: Instr)
    requires Proper(form)
  {
    var at, g := Encoding.Behind(form, rem, mode), GivenTo(form, rem, mode);
    && RowShows(FrameOf(rem, at, mode, g, e.prefix), e, g, StartsAt(form, rem, mode), d, ops)
    && d.insn.seg == (if e.prefix.seg || d.insn.op0.ty == MemOp || d.insn.op1.ty == MemOp then SegmentOf(g.seg)
                      else NoReg)
  }

  /** And decoded: prefixes, sizes, name, operands and length of the instruction are what its bytes encode, by
      the row of the last definition of the same form; in the 3DNow table, where the last byte selects, the name
      is the definition's if that byte is; when decoding fails it is the invalid instruction. */
  lemma DefinitionDecoded(defs: seq<InsnDef>, k: nat, flat: Flat, loc: map<Path, nat>, cfg: Config, rem: seq<byte>)
    returns (j: nat, ops: Instr)
    requires FlatOf(defs, flat, loc) && k < |defs| && Encoding.Matches(FormsOf(defs), k, rem, cfg)
    ensures LastLike(FormsOf(defs), k, j) && WfFlat(flat) && Proper(FormOf(defs[k]))
    ensures Decodes(flat, cfg, rem) && !IsNow(FormOf(defs[k])) && RowInOrder(defs[j].entry) ==>
              DecodedAs(FormOf(defs[k]), defs[j].entry, rem, cfg.mode, Decode(flat, cfg, rem), ops)
    ensures Decodes(flat, cfg, rem) && !IsNow(FormOf(defs[k])) ==>
              Decode(flat, cfg, rem).insn.entry == Some(defs[j].entry)
    ensures Decodes(flat, cfg, rem) && IsNow(FormOf(defs[k])) ==>
              NowNamed(FormOf(defs[k]), Decode(flat, cfg, rem), defs[j].entry.mnemonic)
    ensures !Decodes(flat, cfg, rem) ==> Decode(flat, cfg, rem).insn.entry == Some(INVALID_ENTRY)
  {
    j := DefinitionReached(defs, k, flat, loc, cfg, rem);
    DecodeShows(flat, cfg, rem);
    TargetState(defs, k, flat, loc, cfg, rem);
    ops := NO_INSN;
    if Decodes(flat, cfg, rem) && !IsNow(FormOf(defs[k])) && RowInOrder(defs[j].entry) {
      ops := RowDecodedAs(flat, cfg, rem, FormOf(defs[k]), defs[j].entry);
    }
  }

  predicate NowNamed(form: Form, d: Core, name: Mnemonic)
    requires IsNow(form)
  {
    d.curr == form.opcodes[|form.opcodes| - 1].ext.n ==> d.insn.mnemonic == name
  }

  lemma RowDecodedAs(flat: Flat, cfg: Config, rem: seq<byte>, form: Form, e: Entry) returns (ops: Instr)
    requires WfFlat(flat) && Proper(form) && Walk(flat, cfg, rem).1 == Some(Row(e)) && Decodes(flat, cfg, rem)
    requires RowInOrder(e) && Arrived(form, rem, cfg.mode, Walk(flat, cfg, rem).0)
    ensures DecodedAs(form, e, rem, cfg.mode, Decode(flat, cfg, rem), ops)
  {
    var c, at, g := Walk(flat, cfg, rem).0, Encoding.Behind(form, rem, cfg.mode), GivenTo(form, rem, cfg.mode);
    var (d, ret) := DecodeInsn(rem, cfg, c, e);
    ops := RowMeans(rem, at, cfg, c, g, e);
    FromState(form, rem, cfg.mode, c);
    Finished(flat.itab[0], d, ret);
    FinishedShows(FrameOf(rem, at, cfg.mode, g, e.prefix), e, g, Read(c.modrm.Some?, c.ctr), d,
                  Finish(flat.itab[0], d, ret), ops);
  }

  lemma FromState(form: Form, rem: seq<byte>, mode: ModeBits, c: Core)
    requires Proper(form) && Arrived(form, rem, mode, c) && !c.insn.err
    ensures Read(c.modrm.Some?, c.ctr) == StartsAt(form, rem, mode)
  {
  }

  lemma FinishedShows(f: Frame, e: Entry, g: Given, from: Read, c: Core, d: Core, ops: Instr)
    requires RowShows(f, e, g, from, c, ops) && d == c.(insn := c.insn.(seg := d.insn.seg))
    ensures RowShows(f, e, g, from, d, ops)
  {
  }

  /** The end of decoding drops a segment override that nothing uses. */
  lemma Finished(invalid: Entry, c: Core, ret: int)
    requires ret != -1 && !c.insn.err && c.insn.entry.Some?
    ensures var d, e := Finish(invalid, c, ret), c.insn.entry.value;
            d == c.(insn := c.insn.(seg := if e.prefix.seg || c.insn.op0.ty == MemOp || c.insn.op1.ty == MemOp
                                           then c.insn.seg else NoReg))
  {
  }
}
