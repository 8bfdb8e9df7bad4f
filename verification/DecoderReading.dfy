/** How many bytes decoding reads, and that nothing else of the input matters. */
module DecoderReading {
  import opened Bytes
  import opened Itab
  import opened OpcodeTrie
  import opened OpcodeTables
  import opened TableGenerator
  import opened DecoderState
  import opened Operands
  import opened Decoder

  // ----- Locality -----------------------------------------------------------------

  lemma {:induction false} PrefixesLocal(rem: seq<byte>, rem': seq<byte>, cfg: Config, c: Core, last: byte)
    requires c.ctr < MAX_INSN_LENGTH
    requires var d := DecodePrefixes(rem, cfg, c, last); !d.end && Agree(rem, rem', d.ctr)
    ensures DecodePrefixes(rem', cfg, c, last) == DecodePrefixes(rem, cfg, c, last)
    decreases MAX_INSN_LENGTH - c.ctr
  {
    var d := DecodePrefixes(rem, cfg, c, last);
    var (c1, b) := Next(rem, c);
    AgreeLess(rem, rem', d.ctr, c1.ctr);
    NextLocal(rem, rem', c);
    if !c1.insn.err && c1.ctr != MAX_INSN_LENGTH {
      match NotePrefix(c1, b)
      case Some(c2) => PrefixesLocal(rem, rem', cfg, c2, b);
      case None => if IsRex(cfg, b) { PrefixesLocal(rem, rem', cfg, c1, b); }
    }
  }

  lemma InsnLocal(rem: seq<byte>, rem': seq<byte>, cfg: Config, c: Core, e: Entry)
    requires var d := DecodeInsn(rem, cfg, c, e).0; !d.end && Agree(rem, rem', d.ctr)
    ensures DecodeInsn(rem', cfg, c, e) == DecodeInsn(rem, cfg, c, e)
  {
    var (c1, ok) := EnterRow(cfg, c, e);
    if ok { OperandsLocal(rem, rem', cfg, c1, e); }
  }

  lemma ArriveLocal(rem: seq<byte>, rem': seq<byte>, cfg: Config, c: Core, t: Option<Target>)
    requires var d := Arrive(rem, cfg, c, t).0; !d.end && Agree(rem, rem', d.ctr)
    ensures Arrive(rem', cfg, c, t) == Arrive(rem, cfg, c, t)
  {
    match t
    case None =>
    case Some(Row(e)) => InsnLocal(rem, rem', cfg, c, e);
    case Some(Now(sample, names)) =>
      var c1 := DecodeInsn(rem, cfg, c, sample).0;
      AgreeLess(rem, rem', Next(rem, c1).0.ctr, c1.ctr);
      InsnLocal(rem, rem', cfg, c, sample);
      NextLocal(rem, rem', c1);
  }

  lemma ExtStepLocal(flat: Flat, rem: seq<byte>, rem': seq<byte>, cfg: Config, c: Core, g: nat)
    requires WfFlat(flat) && g < |flat.tables|
    requires MayEnter(flat.tables[g].kind, c) && flat.tables[g].kind != ThreeDNow
    requires var d := ExtStep(flat, rem, cfg, c, g).0; !d.end && Agree(rem, rem', d.ctr)
    ensures ExtStep(flat, rem', cfg, c, g) == ExtStep(flat, rem, cfg, c, g)
  {
    var kind := flat.tables[g].kind;
    if kind == Mod || kind == Reg || kind == Rm { ModrmLocal(rem, rem', c); }
  }

  lemma {:induction false} WalkExtLocal(flat: Flat, rem: seq<byte>, rem': seq<byte>, cfg: Config, c: Core, ptr: nat)
    requires WfFlat(flat) && ValidPtr(flat, c, ptr)
    requires var d := WalkExt(flat, rem, cfg, c, ptr).0; !d.end && Agree(rem, rem', d.ctr)
    ensures WalkExt(flat, rem', cfg, c, ptr) == WalkExt(flat, rem, cfg, c, ptr)
    decreases Ahead(flat, ptr)
  {
    if IsGroup(ptr) && flat.tables[ptr - GROUP_BIT].kind != ThreeDNow {
      var (c1, next) := ExtStep(flat, rem, cfg, c, ptr - GROUP_BIT);
      AgreeLess(rem, rem', WalkExt(flat, rem, cfg, c, ptr).0.ctr, c1.ctr);
      ExtStepLocal(flat, rem, rem', cfg, c, ptr - GROUP_BIT);
      WalkExtLocal(flat, rem, rem', cfg, c1, next);
    }
  }

  lemma {:induction false} WalkOpcodeLocal(flat: Flat, rem: seq<byte>, rem': seq<byte>, cfg: Config, c: Core, g: nat)
    requires WfFlat(flat) && g < |flat.tables| && flat.tables[g].kind == OpcTbl && Entering(c)
    requires var d := WalkOpcode(flat, rem, cfg, c, g).0; !d.end && Agree(rem, rem', d.ctr)
    ensures WalkOpcode(flat, rem', cfg, c, g) == WalkOpcode(flat, rem, cfg, c, g)
    decreases |flat.tables| - g
  {
    if !c.insn.err {
      var c1, ptr := c.(primary := Some(c.curr)), OpcodeEntry(flat, c, g);
      if NextOpcodeTable(flat, ptr) {
        var c2 := Next(rem, c1).0;
        AgreeLess(rem, rem', WalkOpcode(flat, rem, cfg, c, g).0.ctr, c2.ctr);
        NextLocal(rem, rem', c1);
        WalkOpcodeLocal(flat, rem, rem', cfg, c2, ptr - GROUP_BIT);
      } else {
        WalkExtLocal(flat, rem, rem', cfg, c1, ptr);
      }
    }
  }

  lemma WalkLocal(flat: Flat, cfg: Config, rem: seq<byte>, rem': seq<byte>)
    requires WfFlat(flat)
    requires var d := Walk(flat, cfg, rem).0; !d.end && Agree(rem, rem', d.ctr)
    ensures Walk(flat, cfg, rem') == Walk(flat, cfg, rem)
  {
    PrefixesEntering(rem, cfg, FRESH, 0);
    var c := DecodePrefixes(rem, cfg, FRESH, 0);
    AgreeLess(rem, rem', Walk(flat, cfg, rem).0.ctr, c.ctr);
    PrefixesLocal(rem, rem', cfg, FRESH, 0);
    WalkOpcodeLocal(flat, rem, rem', cfg, c, 0);
  }

  /** Decoding is local: unless it runs into the end of the input, the result is a function of
      the bytes it consumed.  A longer buffer, a fresh decoder placed at the instruction or any
      other source of the same bytes gives the same instruction. */
  lemma DecodeLocal(flat: Flat, cfg: Config, rem: seq<byte>, rem': seq<byte>)
    requires WfFlat(flat)
    requires !Decode(flat, cfg, rem).end && Agree(rem, rem', Decode(flat, cfg, rem).ctr)
    ensures Decode(flat, cfg, rem') == Decode(flat, cfg, rem)
  {
    var (c, t) := Walk(flat, cfg, rem);
    AgreeLess(rem, rem', Decode(flat, cfg, rem).ctr, c.ctr);
    ArriveLocal(rem, rem', cfg, c, t);
    WalkLocal(flat, cfg, rem, rem');
  }

  // ----- Length --------------------------------------------------------------------

  /** Opcode tables nest at most `n` deep below and including `g`. */
  ghost predicate Nested(flat: Flat, g: nat, n: nat)
    requires WfFlat(flat) && g < |flat.tables| && flat.tables[g].kind == OpcTbl
    decreases n
  {
    n >= 1 && forall b: byte :: NextOpcodeTable(flat, EntryFor(flat, g, b)) ==>
      Nested(flat, EntryFor(flat, g, b) - GROUP_BIT, n - 1)
  }

  lemma {:induction false} WalkOpcodeLength(flat: Flat, rem: seq<byte>, cfg: Config, c: Core, g: nat, n: nat)
    requires WfFlat(flat) && g < |flat.tables| && flat.tables[g].kind == OpcTbl && Entering(c)
    requires Nested(flat, g, n)
    ensures Advances(rem, c, WalkOpcode(flat, rem, cfg, c, g).0, n - 1)
    decreases n
  {
    if !c.insn.err {
      var ptr := OpcodeEntry(flat, c, g);
      if NextOpcodeTable(flat, ptr) {
        WalkOpcodeLength(flat, rem, cfg, Next(rem, c.(primary := Some(c.curr))).0, ptr - GROUP_BIT, n - 1);
      }
    }
  }

  /** Bytes per instruction: at most 39 plus the nesting of opcode tables, so at most 42 for
      tables nested three deep, and never more than the input holds. */
  lemma DecodeLength(flat: Flat, cfg: Config, rem: seq<byte>, n: nat)
    requires WfFlat(flat) && Nested(flat, 0, n)
    ensures Decode(flat, cfg, rem).ctr <= 39 + n
    ensures Decode(flat, cfg, rem).ctr <= |rem|
  {
    PrefixesEntering(rem, cfg, FRESH, 0);
    WalkOpcodeLength(flat, rem, cfg, DecodePrefixes(rem, cfg, FRESH, 0), 0, n);
  }

  /** Progress: something is consumed unless there is no input at all. */
  lemma DecodeProgress(flat: Flat, cfg: Config, rem: seq<byte>)
    requires WfFlat(flat)
    ensures Decode(flat, cfg, rem).ctr <= |rem|
    ensures rem == [] <==> Decode(flat, cfg, rem).ctr == 0
    ensures rem == [] ==> Decode(flat, cfg, rem).end
  {
    PrefixesEntering(rem, cfg, FRESH, 0);
    if rem != [] { assert Next(rem, FRESH).0.ctr == 1; }
  }
}
