/** The linear sweep for call sites (shiva_analyze.c). */
module Analyze {
  import opened Bytes
  import opened Itab
  import opened OpcodeTrie
  import opened OpcodeTables
  import opened TableGenerator
  import opened DecoderState
  import opened Operands
  import opened Decoder
  import opened DecoderReading
  import opened Udis86
  import opened Modular
  import opened Patching
  import opened Printer

  // ----- The instructions of a buffer -------------------------------------------------

  /** What decoding at each offset of the text gives. */
  ghost function Cores(flat: Flat, cfg: Config, text: seq<byte>): (r: seq<Core>)
    requires WfFlat(flat)
    ensures |r| == |text| + 1
    ensures forall i :: 0 <= i <= |text| ==> r[i] == Decode(flat, cfg, text[i..])
  {
    seq(|text| + 1, i requires 0 <= i <= |text| => Decode(flat, cfg, text[i..]))
  }

  /** Decoding stays inside the text, moves on unless it is at the end, and reports the end of
      the input only after consuming everything. */
  ghost predicate Steady(cores: seq<Core>) {
    && cores != []
    && forall i :: 0 <= i < |cores| ==> SteadyAt(cores[i], |cores| - 1 - i)
  }

  ghost predicate SteadyAt(c: Core, left: nat) {
    c.ctr <= left && (c.ctr == 0 <==> left == 0) && (c.end ==> c.ctr == left) && (left == 0 ==> c.end)
  }

  lemma DecodeSteady(flat: Flat, cfg: Config, rem: seq<byte>)
    requires WfFlat(flat)
    ensures SteadyAt(Decode(flat, cfg, rem), |rem|)
  {
    DecodeProgress(flat, cfg, rem);
    PrefixesEntering(rem, cfg, FRESH, 0);
  }

  lemma CoresSteady(flat: Flat, cfg: Config, text: seq<byte>)
    requires WfFlat(flat)
    ensures Steady(Cores(flat, cfg, text))
  {
    forall i | 0 <= i <= |text|
      ensures SteadyAt(Cores(flat, cfg, text)[i], |text| - i)
    {
      DecodeSteady(flat, cfg, text[i..]);
    }
  }

  /** The offsets at which successive instructions start, from `i` on, until decoding reports
      nothing or the end of the input has been seen. */
  ghost function Starts(cores: seq<Core>, i: nat): (r: seq<nat>)
    requires Steady(cores) && i < |cores|
    decreases |cores| - i
  {
    assert SteadyAt(cores[i], |cores| - 1 - i);
    if cores[i].ctr == 0 then []
    else [i] + (if cores[i].end then [] else Starts(cores, i + cores[i].ctr))
  }

  /** The k-th instruction ends where the next begins, the last one at the end of the text. */
  ghost predicate TileAt(cores: seq<Core>, starts: seq<nat>, k: nat) {
    && cores != [] && k < |starts| && starts[k] < |cores| - 1 && cores[starts[k]].ctr > 0
    && starts[k] + cores[starts[k]].ctr == if k + 1 < |starts| then starts[k + 1] else |cores| - 1
  }

  /** The sweep tiles the text: every byte belongs to exactly one instruction. */
  lemma {:induction false} StartsTile(cores: seq<Core>, i: nat)
    requires Steady(cores) && i < |cores|
    ensures Starts(cores, i) == [] <==> i == |cores| - 1
    ensures Starts(cores, i) != [] ==> Starts(cores, i)[0] == i
    ensures forall k :: 0 <= k < |Starts(cores, i)| ==> TileAt(cores, Starts(cores, i), k)
    decreases |cores| - i
  {
    assert SteadyAt(cores[i], |cores| - 1 - i);
    if cores[i].ctr != 0 && !cores[i].end {
      StartsTile(cores, i + cores[i].ctr);
      TilePush(cores, i, Starts(cores, i + cores[i].ctr));
    }
  }

  lemma TilePush(cores: seq<Core>, i: nat, rest: seq<nat>)
    requires i < |cores| - 1 && cores[i].ctr > 0
    requires forall k :: 0 <= k < |rest| ==> TileAt(cores, rest, k)
    requires rest == [] ==> i + cores[i].ctr == |cores| - 1
    requires rest != [] ==> i + cores[i].ctr == rest[0]
    ensures forall k :: 0 <= k < |[i] + rest| ==> TileAt(cores, [i] + rest, k)
  {
    forall k | 0 <= k < |[i] + rest|
      ensures TileAt(cores, [i] + rest, k)
    {
      if k > 0 { assert TileAt(cores, rest, k - 1); }
    }
  }

  // ----- Call sites ---------------------------------------------------------------------

  /** struct shiva_branch_site without its symbol. */
  datatype BranchSite = BranchSite(site: nat, target: nat, retaddr: nat)

  ghost predicate IsCall(text: seq<byte>, cores: seq<Core>, i: nat) {
    i < |text| && i < |cores| && cores[i].insn.mnemonic == Call && text[i] == 0xE8
  }

  /** A 32-bit little-endian load. */
  function Load32(text: seq<byte>, at: nat): nat
    requires at + 4 <= |text|
  {
    var b0: nat, b1: nat, b2: nat, b3: nat := text[at], text[at + 1], text[at + 2], text[at + 3];
    b0 + 0x100 * b1 + 0x1_0000 * b2 + 0x100_0000 * b3
  }

  function SiteOf(text: seq<byte>, base: nat, i: nat, len: nat): BranchSite
    requires i + 5 <= |text|
  {
    var site := (base + i) % WORD;
    BranchSite(site, (site + Load32(text, i + 1) + 5) % HALF, (site + len) % WORD)
  }

  /** Every recorded call is five bytes long and inside the text. */
  ghost predicate CallsWhole(text: seq<byte>, cores: seq<Core>) {
    forall i: nat :: IsCall(text, cores, i) ==> i + 5 <= |text| && cores[i].ctr == 5
  }

  /** The sites of the calls among the given starts, in order. */
  ghost function Sites(text: seq<byte>, cores: seq<Core>, base: nat, starts: seq<nat>): (r: seq<BranchSite>)
    requires CallsWhole(text, cores)
  {
    if starts == [] then [] else Found(text, cores, base, starts[0]) + Sites(text, cores, base, starts[1..])
  }

  ghost function Found(text: seq<byte>, cores: seq<Core>, base: nat, i: nat): seq<BranchSite>
    requires CallsWhole(text, cores)
  {
    if IsCall(text, cores, i) then [SiteOf(text, base, i, cores[i].ctr)] else []
  }

  /** The table has the near call at opcode 0xE8, and row 0 is not a call. */
  ghost predicate HasCall(flat: Flat) {
    && WfFlat(flat) && flat.itab[0].mnemonic != Call
    && var ptr := EntryFor(flat, 0, 0xE8);
       && !IsGroup(ptr)
       && IsCallRow(flat.itab[ptr])
  }

  /** Decoding at a byte 0xE8: the prefix loop stops at once and the table gives the call. */
  lemma CallWalk(flat: Flat, cfg: Config, rem: seq<byte>)
    requires HasCall(flat) && rem != [] && rem[0] == 0xE8
    ensures Walk(flat, cfg, rem) ==
            (FRESH.(ctr := 1, curr := 0xE8, primary := Some(0xE8)), Some(Row(flat.itab[EntryFor(flat, 0, 0xE8)])))
  {
    PrefixesEntering(rem, cfg, FRESH, 0);
    var c := FRESH.(ctr := 1, curr := 0xE8);
    assert Next(rem, FRESH) == (c, 0xE8);
    assert DecodePrefixes(rem, cfg, FRESH, 0) == c;
    assert OpcodeEntry(flat, c, 0) == EntryFor(flat, 0, 0xE8);
  }

  /** The four displacement bytes, or the end of the input. */
  lemma CallBytes(rem: seq<byte>, c: Core)
    requires rem != [] && c.ctr == 1 && !c.end
    ensures |rem| >= 5 ==> Uint(rem, c, 4) == (c.(ctr := 5, curr := rem[4]), Load32(rem, 1))
    ensures |rem| < 5 ==> Uint(rem, c, 4).0.insn.err
  {
    var c1 := Next(rem, c).0;
    var c2 := Next(rem, c1).0;
    var c3 := Next(rem, c2).0;
    UintOne(rem, c3);
    assert Uint(rem, c2, 2) == (Next(rem, c3).0, Next(rem, c2).1 + 256 * Next(rem, c3).1);
    assert Uint(rem, c1, 3) == (Next(rem, c3).0, Next(rem, c1).1 + 256 * Uint(rem, c2, 2).1);
  }

  ghost predicate IsCallRow(e: Entry) {
    && e.mnemonic == Call && e.operand1 == OperandSpec(OpJ, SZ_Z)
    && e.operand2 == NO_OPERAND && e.operand3 == NO_OPERAND && !e.prefix.inv64 && e.prefix.def64
  }

  lemma CallOperands(cfg: Config, rem: seq<byte>, c: Core, e: Entry)
    requires IsCallRow(e) && (c.oprMode == 32 || c.oprMode == 64) && c.insn.op1 == CLEARED && c.insn.op2 == CLEARED
    ensures var (d, v) := Uint(rem, c, 4);
            DecodeOperands(rem, cfg, c, e) ==
            d.(insn := d.insn.(op0 := CLEARED.(code := OpJ, ty := JimmOp, size := 32, lval := v),
                               op1 := CLEARED, op2 := CLEARED))
  {
    var (d, v) := Uint(rem, c, 4);
    var op := CLEARED.(code := OpJ, ty := JimmOp, size := 32, lval := v);
    RelativeOperand(cfg, rem, c, e.operand1, 4);
    NoMoreOperands(cfg, rem, d.(insn := d.insn.(op0 := op)));
    NoMoreOperands(cfg, rem, d.(insn := d.insn.(op0 := op, op1 := CLEARED)));
  }

  lemma RelativeOperand(cfg: Config, rem: seq<byte>, c: Core, spec: OperandSpec, n: nat)
    requires (c.oprMode == 32 || c.oprMode == 64) && spec.code == OpJ && spec.size == SZ_Z && n == 4
    ensures DecodeOperand(rem, cfg, c, spec) ==
            (Uint(rem, c, n).0, CLEARED.(code := OpJ, ty := JimmOp, size := 32, lval := Uint(rem, c, n).1))
  {
    InlineOperand(rem, cfg, c, spec);
    RelativeImm(cfg, rem, c, CLEARED.(code := spec.code), n);
    RelativeInline(cfg, rem, c, CLEARED.(code := spec.code), spec, Uint(rem, c, n).0, Uint(rem, c, n).1);
  }

  lemma InlineOperand(rem: seq<byte>, cfg: Config, c: Core, spec: OperandSpec)
    requires IsInlineCode(spec.code)
    ensures DecodeOperand(rem, cfg, c, spec) == DecodeInlineOperand(rem, cfg, c, CLEARED.(code := spec.code), spec)
  {
  }

  lemma RelativeInline(cfg: Config, rem: seq<byte>, c: Core, op: Operand, spec: OperandSpec, d: Core, v: nat)
    requires spec.code == OpJ && DecodeImm(rem, cfg, c, op, spec.size) == (d, op.(ty := ImmOp, size := 32, lval := v))
    ensures DecodeInlineOperand(rem, cfg, c, op, spec) == (d, op.(ty := JimmOp, size := 32, lval := v))
  {
  }

  lemma RelativeImm(cfg: Config, rem: seq<byte>, c: Core, op: Operand, n: nat)
    requires (c.oprMode == 32 || c.oprMode == 64) && n == 4
    ensures DecodeImm(rem, cfg, c, op, SZ_Z) ==
            (Uint(rem, c, n).0, op.(ty := ImmOp, size := 32, lval := Uint(rem, c, n).1))
  {
    assert ResolveSize(cfg, c, SZ_Z) == 32;
  }

  lemma NoMoreOperands(cfg: Config, rem: seq<byte>, c: Core)
    ensures DecodeOperand(rem, cfg, c, NO_OPERAND) == (c, CLEARED)
  {
  }

  lemma CallInsn(cfg: Config, rem: seq<byte>, c: Core, e: Entry)
    requires IsCallRow(e) && cfg.mode != 16 && rem != []
    requires c == FRESH.(ctr := 1, curr := 0xE8, primary := Some(0xE8))
    ensures var (d, ret) := DecodeInsn(rem, cfg, c, e);
            if |rem| >= 5 then
              && ret == 0 && !d.insn.err && d.ctr == 5 && d.oprMode == cfg.mode && d.insn.mnemonic == Call
              && d.insn.op0 == CLEARED.(code := OpJ, ty := JimmOp, size := 32, lval := Load32(rem, 1))
            else d.insn.err
  {
    var (c1, ok) := EnterRow(cfg, c, e);
    assert ok && c1.oprMode == cfg.mode && c1.ctr == 1 && !c1.end && !c1.insn.err && c1.insn.mnemonic == Call;
    CallBytes(rem, c1);
    CallOperands(cfg, rem, c1, e);
  }

  ghost predicate DecodedCall(d: Core, cfg: Config, rem: seq<byte>) {
    && (d.insn.mnemonic == Call <==> |rem| >= 5)
    && (|rem| >= 5 ==>
          && d.ctr == 5 && d.insn.op0.ty == JimmOp && d.insn.op0.size == 32
          && d.insn.op0.lval == Load32(rem, 1) && d.oprMode == cfg.mode)
  }

  /** A call decodes exactly when its five bytes are there; its operand is then the 32-bit
      displacement, in 32-bit and in 64-bit mode alike. */
  lemma CallDecodes(flat: Flat, cfg: Config, rem: seq<byte>)
    requires HasCall(flat) && rem != [] && rem[0] == 0xE8 && cfg.mode != 16
    ensures DecodedCall(Decode(flat, cfg, rem), cfg, rem)
  {
    CallWalk(flat, cfg, rem);
    CallInsn(cfg, rem, FRESH.(ctr := 1, curr := 0xE8, primary := Some(0xE8)), flat.itab[EntryFor(flat, 0, 0xE8)]);
  }

  lemma CoresCallsWhole(flat: Flat, cfg: Config, text: seq<byte>)
    requires HasCall(flat) && cfg.mode != 16
    ensures CallsWhole(text, Cores(flat, cfg, text))
  {
    forall i: nat | IsCall(text, Cores(flat, cfg, text), i)
      ensures i + 5 <= |text| && Cores(flat, cfg, text)[i].ctr == 5
    {
      CallDecodes(flat, cfg, text[i..]);
    }
  }

  // ----- What is recorded --------------------------------------------------------------------

  /** Starts ascend strictly. */
  lemma StartsAscend(cores: seq<Core>, j: nat, k: nat)
    requires Steady(cores) && j < k < |Starts(cores, 0)|
    ensures Starts(cores, 0)[j] < Starts(cores, 0)[k]
    decreases k - j
  {
    StartsTile(cores, 0);
    assert TileAt(cores, Starts(cores, 0), j);
    if j + 1 < k { StartsAscend(cores, j + 1, k); }
  }

  /** A near call at offset i of the text, and its site: address, target modulo 2^32, and return address. */
  ghost predicate CallSite(text: seq<byte>, cores: seq<Core>, base: nat, i: nat, s: BranchSite) {
    && i + 5 <= |text| && i < |cores| && text[i] == 0xE8 && cores[i].insn.mnemonic == Call
    && s.site == (base + i) % 0x1_0000_0000_0000_0000 && s.retaddr == (base + i + 5) % 0x1_0000_0000_0000_0000
    && s.target == (base + i + 5 + Value(text[i + 1..i + 5])) % 0x1_0000_0000
  }

  /** A site is recorded exactly for the starts that are near calls. */
  lemma SitesExact(text: seq<byte>, cores: seq<Core>, base: nat, starts: seq<nat>, s: BranchSite)
    requires CallsWhole(text, cores)
    ensures s in Sites(text, cores, base, starts) <==>
            exists k :: 0 <= k < |starts| && CallSite(text, cores, base, starts[k], s)
  {
    SitesFound(text, cores, base, starts, s);
    forall k | 0 <= k < |starts|
      ensures s in Found(text, cores, base, starts[k]) <==> CallSite(text, cores, base, starts[k], s)
    {
      FoundIs(text, cores, base, starts[k], s);
    }
  }

  lemma FoundIs(text: seq<byte>, cores: seq<Core>, base: nat, i: nat, s: BranchSite)
    requires CallsWhole(text, cores)
    ensures s in Found(text, cores, base, i) <==> CallSite(text, cores, base, i, s)
  {
    if i + 5 <= |text| {
      ModAdd(base + i, 5, WORD);
      LoadIsValue(text, i + 1);
      WordThenHalf(base + i, Load32(text, i + 1) + 5);
    }
  }

  lemma LoadIsValue(text: seq<byte>, at: nat)
    requires at + 4 <= |text|
    ensures Load32(text, at) == Value(text[at..at + 4])
  {
    var s := text[at..at + 4];
    assert Value(s[1..]) == s[1] as nat + 256 * Value(s[1..][1..]);
    assert Value(s[1..][1..]) == s[2] as nat + 256 * Value(s[1..][1..][1..]);
    assert Value(s[1..][1..][1..]) == s[3] as nat;
  }

  lemma {:induction false} SitesFound(text: seq<byte>, cores: seq<Core>, base: nat, starts: seq<nat>, s: BranchSite)
    requires CallsWhole(text, cores)
    ensures s in Sites(text, cores, base, starts) <==>
            exists k :: 0 <= k < |starts| && s in Found(text, cores, base, starts[k])
  {
    if starts != [] {
      var rest := starts[1..];
      SitesFound(text, cores, base, rest, s);
      if k :| 0 <= k < |rest| && s in Found(text, cores, base, rest[k]) {
        assert starts[k + 1] == rest[k];
      }
      if k :| 0 <= k < |starts| && s in Found(text, cores, base, starts[k]) {
        assert k > 0 ==> rest[k - 1] == starts[k];
      }
    }
  }

  ghost predicate SitesFrom(sites: seq<BranchSite>, limit: nat) {
    forall j :: 0 <= j < |sites| ==> limit <= sites[j].site
  }

  ghost predicate Ascending(sites: seq<BranchSite>) {
    forall j, k :: 0 <= j < k < |sites| ==> sites[j].site < sites[k].site
  }

  /** Where the text does not wrap around the address space, sites are recorded in strictly
      ascending order. */
  lemma {:induction false} SitesAscend(text: seq<byte>, cores: seq<Core>, base: nat, starts: seq<nat>, limit: nat)
    requires CallsWhole(text, cores) && base + |text| <= WORD
    requires forall j, k :: 0 <= j < k < |starts| ==> starts[j] < starts[k]
    requires forall j :: 0 <= j < |starts| ==> limit <= starts[j]
    ensures Ascending(Sites(text, cores, base, starts)) && SitesFrom(Sites(text, cores, base, starts), base + limit)
  {
    if starts != [] {
      SitesAscend(text, cores, base, starts[1..], starts[0] + 1);
      FoundAt(text, cores, base, starts[0]);
    }
  }

  lemma FoundAt(text: seq<byte>, cores: seq<Core>, base: nat, i: nat)
    requires CallsWhole(text, cores) && base + |text| <= WORD
    ensures |Found(text, cores, base, i)| <= 1 && forall s :: s in Found(text, cores, base, i) ==> s.site == base + i
  {
  }

  /** The recorded target and the decoder's own branch target agree modulo 2^32: the sweep's is
      an address, the decoder's an offset from the start of the text. */
  lemma TargetAgrees(flat: Flat, cfg: Config, text: seq<byte>, base: nat, i: nat, d: Core)
    requires HasCall(flat) && cfg.mode != 16 && i < |text| && text[i] == 0xE8
    requires d == Decode(flat, cfg, text[i..]) && d.insn.mnemonic == Call
    ensures i + 5 <= |text| && d.ctr == 5 && RelPrintable(d.insn.op0)
    ensures var s := SiteOf(text, base, i, d.ctr);
            && s.retaddr == (base + i + 5) % WORD
            && s.target == (base + RelTarget((i + 5) % WORD, d.oprMode, d.insn.op0)) % HALF
  {
    CallDecodes(flat, cfg, text[i..]);
    CallAgrees(cfg, text, base, i, d);
  }

  /** The recorded target is the call's own, as a 64-bit address, if and only if that is below 2^32. */
  lemma TargetExact(text: seq<byte>, base: nat, i: nat, len: nat)
    requires i + 5 <= |text|
    ensures var own := (base + i + 5 + Signed(Load32(text, i + 1), 32)) % WORD;
            SiteOf(text, base, i, len).target == own <==> own < HALF
  {
    var v := Load32(text, i + 1);
    var x := base + i + 5 + Signed(v, 32);
    WordThenHalf(base + i, v + 5);
    ModAddMultiple(x, if v < HALF / 2 then 0 else 1, HALF);
    ModMod(x, HALF, HALF);
  }

  lemma CallAgrees(cfg: Config, text: seq<byte>, base: nat, i: nat, d: Core)
    requires cfg.mode != 16 && i < |text| && DecodedCall(d, cfg, text[i..]) && d.insn.mnemonic == Call
    ensures i + 5 <= |text| && d.ctr == 5 && RelPrintable(d.insn.op0)
    ensures var s := SiteOf(text, base, i, d.ctr);
            && s.retaddr == (base + i + 5) % WORD
            && s.target == (base + RelTarget((i + 5) % WORD, d.oprMode, d.insn.op0)) % HALF
  {
    assert Load32(text[i..], 1) == Load32(text, i + 1);
    SiteTarget(text, base, i, cfg.mode, d.insn.op0);
  }

  lemma SiteTarget(text: seq<byte>, base: nat, i: nat, mode: nat, op: Operand)
    requires i + 5 <= |text| && (mode == 32 || mode == 64) && op.size == 32 && op.lval == Load32(text, i + 1)
    ensures RelPrintable(op)
    ensures var s := SiteOf(text, base, i, 5);
            && s.retaddr == (base + i + 5) % WORD
            && s.target == (base + RelTarget((i + 5) % WORD, mode, op)) % HALF
  {
    ModAdd(base + i, 5, WORD);
    CallTarget(base, i, op.lval, mode);
  }

  /** The decoder's target, truncated further, is the end of the call plus the displacement. */
  lemma DecoderTarget(x: int, mode: nat)
    requires mode == 32 || mode == 64
    ensures ((x % Range(64)) % Range(mode)) % HALF == x % HALF
  {
    TruncateTwice(x, mode);
    TruncateTwice(x, 32);
    if mode == 64 {
      TruncateTwice(x % Range(64), 64);
    }
  }

  /** The arithmetic of that agreement. */
  lemma CallTarget(base: nat, i: nat, v: nat, mode: nat)
    requires v < HALF && (mode == 32 || mode == 64)
    ensures ((base + i) % WORD + v + 5) % HALF ==
            (base + (((i + 5) % WORD + Signed(v, 32)) % Range(64)) % Range(mode)) % HALF
  {
    var s := Signed(v, 32);
    var x := i + 5 + s;
    ModAdd(i + 5, s, WORD);
    DecoderTarget(x, mode);
    ModCongruent((x % Range(64)) % Range(mode), x, base, HALF);
    WordThenHalf(base + i, v + 5);
    ModAddMultiple(base + x, if s == v then 0 else 1, HALF);
  }

  // ----- The sweep -------------------------------------------------------------------------

  /** The decoder has just decoded the instruction at offset `i` of the text. */
  ghost predicate JustDecoded(ud: Ud, text: seq<byte>, cores: seq<Core>, i: nat, len: nat)
    reads ud
  {
    && i < |cores| == |text| + 1 && len == cores[i].ctr && i + len <= |text|
    && ud.inp.buf == Some(text) && ud.inp.index == i + len && ud.inp.ctr == len && ud.inp.end == cores[i].end
    && ud.insn == cores[i].insn
  }

  /** `cores` holds what decoding at each offset gives. */
  ghost predicate AllDecoded(flat: Flat, cfg: Config, text: seq<byte>, cores: seq<Core>) {
    && WfFlat(flat) && |cores| == |text| + 1
    && forall i: nat {:trigger DecodedAt(flat, cfg, text, cores, i)} :: i <= |text| ==>
      DecodedAt(flat, cfg, text, cores, i)
  }

  ghost predicate DecodedAt(flat: Flat, cfg: Config, text: seq<byte>, cores: seq<Core>, i: nat)
    requires WfFlat(flat)
  {
    i <= |text| && i < |cores| && cores[i] == Decode(flat, cfg, text[i..])
  }

  ghost predicate Sweeping(ud: Ud, text: seq<byte>, cores: seq<Core>, depth: nat)
    reads ud
  {
    ud.Ready(depth) && AllDecoded(ud.flat, Config(ud.disMode, ud.vendor), text, cores)
  }

  /** ud_disassemble at offset `i`. */
  method Disassemble(ud: Ud, text: seq<byte>, i: nat, ghost cores: seq<Core>, ghost depth: nat) returns (len: nat)
    requires Sweeping(ud, text, cores, depth)
    requires ud.inp.buf == Some(text) && ud.inp.index == i <= |text| && !ud.inp.end
    modifies ud
    ensures Sweeping(ud, text, cores, depth) && JustDecoded(ud, text, cores, i, len)
  {
    assert DecodedAt(ud.flat, Config(ud.disMode, ud.vendor), text, cores, i);
    len := ud.UdDisassemble(depth);
  }

  /** What the sweep must have at each offset: the address there, and what is recorded there. */
  datatype Spot = Spot(addr: nat, found: seq<BranchSite>)

  ghost predicate PlanAt(text: seq<byte>, cores: seq<Core>, base: nat, plan: seq<Spot>, i: nat)
    requires CallsWhole(text, cores)
  {
    i < |plan| && plan[i] == Spot((base + i) % WORD, Found(text, cores, base, i))
  }

  ghost predicate Planned(text: seq<byte>, cores: seq<Core>, base: nat, plan: seq<Spot>) {
    && CallsWhole(text, cores) && |plan| == |cores|
    && forall i: nat {:trigger PlanAt(text, cores, base, plan, i)} :: i < |cores| ==> PlanAt(text, cores, base, plan, i)
  }

  ghost function Plan(text: seq<byte>, cores: seq<Core>, base: nat): (r: seq<Spot>)
    requires CallsWhole(text, cores)
    ensures Planned(text, cores, base, r)
  {
    seq(|cores|, i requires 0 <= i < |cores| => Spot((base + i) % WORD, Found(text, cores, base, i)))
  }

  /** What is recorded at the given offsets. */
  ghost function Gathered(plan: seq<Spot>, starts: seq<nat>): seq<BranchSite> {
    if starts == [] then []
    else (if starts[0] < |plan| then plan[starts[0]].found else []) + Gathered(plan, starts[1..])
  }

  lemma GatheredNext(plan: seq<Spot>, i: nat, rest: seq<nat>, sites: seq<BranchSite>)
    requires i < |plan|
    ensures sites + Gathered(plan, [i] + rest) == (sites + plan[i].found) + Gathered(plan, rest)
  {
    assert ([i] + rest)[1..] == rest;
  }

  lemma {:induction false} GatheredIsSites(text: seq<byte>, cores: seq<Core>, base: nat, plan: seq<Spot>,
                                           starts: seq<nat>)
    requires Planned(text, cores, base, plan) && forall k :: 0 <= k < |starts| ==> starts[k] < |plan|
    ensures Gathered(plan, starts) == Sites(text, cores, base, starts)
  {
    if starts != [] {
      GatheredIsSites(text, cores, base, plan, starts[1..]);
      assert PlanAt(text, cores, base, plan, starts[0]);
    }
  }

  lemma StartsInside(cores: seq<Core>)
    requires Steady(cores)
    ensures forall k :: 0 <= k < |Starts(cores, 0)| ==> Starts(cores, 0)[k] < |cores|
  {
    StartsTile(cores, 0);
    forall k | 0 <= k < |Starts(cores, 0)|
      ensures Starts(cores, 0)[k] < |cores|
    {
      assert TileAt(cores, Starts(cores, 0), k);
    }
  }

  /** The body of the loop: the new list of sites. */
  method Record(ud: Ud, text: seq<byte>, base: nat, current: nat, len: nat, sites: seq<BranchSite>,
                ghost cores: seq<Core>, ghost plan: seq<Spot>, ghost i: nat) returns (r: seq<BranchSite>)
    requires Planned(text, cores, base, plan) && Steady(cores) && JustDecoded(ud, text, cores, i, len) && len != 0
    requires current == plan[i].addr
    ensures r == sites + plan[i].found
  {
    r := sites;
    assert SteadyAt(cores[i], |text| - i) && PlanAt(text, cores, base, plan, i);
    var at := ud.inp.index - ud.inp.ctr;
    if ud.insn.mnemonic == Call {
      if text[at] == 0xE8 {
        assert IsCall(text, cores, i);
        var target := (current + Load32(text, at + 1) + 5) % HALF;
        r := r + [BranchSite(current, target, (current + len) % WORD)];
      }
    }
  }

  /** current_address += len. */
  method NextAddress(current: nat, len: nat, ghost text: seq<byte>, ghost base: nat, ghost cores: seq<Core>,
                     ghost plan: seq<Spot>, ghost i: nat)
    returns (next: nat)
    requires Planned(text, cores, base, plan) && i + len < |plan| && current == plan[i].addr
    ensures next == plan[i + len].addr
  {
    assert PlanAt(text, cores, base, plan, i) && PlanAt(text, cores, base, plan, i + len);
    AddressMoves(base, i, len, current);
    next := (current + len) % WORD;
  }

  lemma AddressMoves(base: nat, i: nat, len: nat, current: nat)
    requires current == (base + i) % WORD
    ensures (current + len) % WORD == (base + (i + len)) % WORD
  {
    ModAdd(base + i, len, WORD);
    assert base + i + len == base + (i + len);
  }

  /** The length of the instruction after the one at `i`: 0 when the end has been reached. */
  ghost function NextLength(cores: seq<Core>, i: nat): nat
    requires Steady(cores) && i < |cores|
  {
    assert SteadyAt(cores[i], |cores| - 1 - i);
    if cores[i].end then 0 else cores[i + cores[i].ctr].ctr
  }

  /** Going on from the instruction at `i`, the sites so far become `all`. */
  ghost predicate Completes(cores: seq<Core>, plan: seq<Spot>, len: nat, sites: seq<BranchSite>, i: nat,
                            all: seq<BranchSite>)
    requires Steady(cores) && |plan| == |cores| && i < |cores| && (len != 0 ==> len == cores[i].ctr)
    decreases |cores| - i
  {
    if len == 0 then sites == all
    else
      assert SteadyAt(cores[i], |cores| - 1 - i);
      Completes(cores, plan, NextLength(cores, i), sites + plan[i].found, i + len, all)
  }

  lemma {:induction false} CompletesAll(cores: seq<Core>, plan: seq<Spot>, sites: seq<BranchSite>, i: nat)
    requires Steady(cores) && |plan| == |cores| && i < |cores|
    ensures Completes(cores, plan, cores[i].ctr, sites, i, sites + Gathered(plan, Starts(cores, i)))
    decreases |cores| - i
  {
    assert SteadyAt(cores[i], |cores| - 1 - i);
    if cores[i].ctr != 0 {
      var next := i + cores[i].ctr;
      var rest := if cores[i].end then [] else Starts(cores, next);
      GatheredNext(plan, i, rest, sites);
      if !cores[i].end {
        CompletesAll(cores, plan, sites + plan[i].found, next);
      }
    }
  }

  /** The loop of shiva_analyze_find_calls: it keeps its own address equal to the decoder's. */
  method Sweep(ud: Ud, text: seq<byte>, base: nat, ghost cores: seq<Core>, ghost plan: seq<Spot>, ghost depth: nat)
    returns (sites: seq<BranchSite>)
    requires Sweeping(ud, text, cores, depth) && Steady(cores) && Planned(text, cores, base, plan) &&
             plan[0].addr == base
    requires ud.inp.buf == Some(text) && ud.inp.index == 0 && !ud.inp.end
    modifies ud
    ensures sites == Gathered(plan, Starts(cores, 0))
  {
    ghost var all := Gathered(plan, Starts(cores, 0));
    sites := [];
    var current: nat := base;
    ghost var i: nat := 0;
    var len := Begin(ud, text, cores, plan, depth, all);
    while len != 0
      invariant i < |cores| && (len != 0 ==> current == plan[i].addr)
      invariant Sweeping(ud, text, cores, depth)
      invariant len != 0 ==> JustDecoded(ud, text, cores, i, len)
      invariant Completes(cores, plan, len, sites, i, all)
      decreases |text| - i
    {
      ghost var next := i + len;
      sites, current, len := Turn(ud, text, base, current, len, sites, cores, plan, depth, i, all);
      i := next;
    }
  }

  /** The first instruction. */
  method Begin(ud: Ud, text: seq<byte>, ghost cores: seq<Core>, ghost plan: seq<Spot>, ghost depth: nat,
               ghost all: seq<BranchSite>) returns (len: nat)
    requires Sweeping(ud, text, cores, depth) && Steady(cores) && |plan| == |cores|
    requires ud.inp.buf == Some(text) && ud.inp.index == 0 && !ud.inp.end && all == Gathered(plan, Starts(cores, 0))
    modifies ud
    ensures Sweeping(ud, text, cores, depth) && JustDecoded(ud, text, cores, 0, len)
    ensures Completes(cores, plan, len, [], 0, all)
  {
    len := Disassemble(ud, text, 0, cores, depth);
    CompletesAll(cores, plan, [], 0);
    assert [] + all == all;
  }

  /** One turn of it. */
  method Turn(ud: Ud, text: seq<byte>, base: nat, current: nat, len: nat, sites: seq<BranchSite>,
              ghost cores: seq<Core>, ghost plan: seq<Spot>, ghost depth: nat, ghost i: nat, ghost all: seq<BranchSite>)
    returns (found: seq<BranchSite>, next: nat, size: nat)
    requires Sweeping(ud, text, cores, depth) && Steady(cores) && Planned(text, cores, base, plan)
    requires len != 0 && JustDecoded(ud, text, cores, i, len) && current == plan[i].addr
    requires Completes(cores, plan, len, sites, i, all)
    modifies ud
    ensures Sweeping(ud, text, cores, depth) && i + len < |plan| && next == plan[i + len].addr
    ensures size != 0 ==> JustDecoded(ud, text, cores, i + len, size)
    ensures Completes(cores, plan, size, found, i + len, all)
  {
    found := Record(ud, text, base, current, len, sites, cores, plan, i);
    next := NextAddress(current, len, text, base, cores, plan, i);
    if ud.inp.end {
      size := 0;
    } else {
      size := Disassemble(ud, text, ud.inp.index, cores, depth);
    }
  }

  /** shiva_analyze_find_calls, without the symbol lookups. */
  method FindCalls(flat: Flat, text: seq<byte>, is64: bool, base: nat, ghost depth: nat)
    returns (sites: seq<BranchSite>)
    requires HasCall(flat) && 1 <= depth <= 25 && Nested(flat, 0, depth) && base < WORD
    ensures var cores := Cores(flat, Config(if is64 then 64 else 32, Amd), text);
            && Steady(cores) && CallsWhole(text, cores)
            && sites == Sites(text, cores, base, Starts(cores, 0))
  {
    var ud := SetUp(flat, text, is64, depth);
    ghost var cores := Cores(flat, Config(if is64 then 64 else 32, Amd), text);
    CoresSteady(flat, Config(if is64 then 64 else 32, Amd), text);
    CoresCallsWhole(flat, Config(if is64 then 64 else 32, Amd), text);
    ghost var plan := PlanFor(text, cores, base);
    sites := Sweep(ud, text, base, cores, plan, depth);
  }

  /** The decoder over the text. */
  method SetUp(flat: Flat, text: seq<byte>, is64: bool, ghost depth: nat) returns (ud: Ud)
    requires WfFlat(flat) && 1 <= depth <= 25 && Nested(flat, 0, depth)
    ensures fresh(ud) && Sweeping(ud, text, Cores(flat, Config(if is64 then 64 else 32, Amd), text), depth)
    ensures ud.inp.buf == Some(text) && ud.inp.index == 0 && !ud.inp.end
  {
    ud := new Ud(flat);
    ud.SetInputBuffer(text);
    ud.SetMode(if is64 then 64 else 32);
  }

  /** A plan whose findings are the sites. */
  lemma PlanFor(text: seq<byte>, cores: seq<Core>, base: nat) returns (plan: seq<Spot>)
    requires Steady(cores) && CallsWhole(text, cores) && base < WORD
    ensures Planned(text, cores, base, plan) && plan[0].addr == base
    ensures Gathered(plan, Starts(cores, 0)) == Sites(text, cores, base, Starts(cores, 0))
  {
    plan := Plan(text, cores, base);
    assert PlanAt(text, cores, base, plan, 0);
    StartsInside(cores);
    GatheredIsSites(text, cores, base, plan, Starts(cores, 0));
  }
}
