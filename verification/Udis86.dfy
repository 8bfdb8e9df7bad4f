/** The decoder object of libudis86 (decode.c, udis86.c), proved against the decoding functions.

    Every method takes the abstract state `c` it starts from as a ghost argument and ends in the
    state the corresponding function gives.  Dead fields of the object (ModRM byte not read, modes
    not resolved, current byte before the first read) are not related to `c`, so whatever the
    previous instruction left in them has no influence. */
module Udis86 {
  import opened Bytes
  import opened Itab
  import opened OpcodeTrie
  import opened OpcodeTables
  import opened TableGenerator
  import opened DecoderState
  import opened Operands
  import opened Decoder
  import opened DecoderReading

  const SESSION_SIZE: nat := 64

  /** The fields that ud_inp_init resets; `hook` is what the input hook will still deliver. */
  datatype InputState = InputState(
    buf: Option<seq<byte>>, index: nat, curr: byte, ctr: nat, sess: seq<byte>, end: bool, hook: seq<byte>)

  /** The input from the cursor on. */
  function Rem(inp: InputState): seq<byte> {
    match inp.buf
    case Some(buf) => if inp.index <= |buf| then buf[inp.index..] else []
    case None => inp.hook
  }

  /** The input state once `n` bytes of an instruction have been read, from the state at its start. */
  function After(start: InputState, n: nat, end: bool): InputState
    requires n <= |Rem(start)| && n <= |start.sess|
  {
    var curr := if n == 0 then start.curr else Rem(start)[n - 1];
    match start.buf
    case Some(_) => start.(ctr := n, end := end, curr := curr, index := start.index + n)
    case None => start.(ctr := n, end := end, curr := curr, hook := start.hook[n..],
                        sess := start.hook[..n] + start.sess[n..])
  }

  /** inp_next on the input state: the byte, unless the end of the input is reached. */
  function NextInput(inp: InputState): (InputState, Option<byte>)
    requires inp.ctr < |inp.sess|
  {
    if inp.end then (inp, None)
    else
      match inp.buf
      case Some(buf) =>
        if inp.index < |buf|
        then (inp.(ctr := inp.ctr + 1, curr := buf[inp.index], index := inp.index + 1), Some(buf[inp.index]))
        else (inp.(end := true), None)
      case None =>
        if inp.hook != []
        then (inp.(hook := inp.hook[1..], curr := inp.hook[0], sess := inp.sess[inp.ctr := inp.hook[0]],
                   ctr := inp.ctr + 1), Some(inp.hook[0]))
        else (inp.(end := true), None)
  }

  /** Both input modes deliver the bytes of Rem one by one. */
  lemma NextInputAfter(start: InputState, c: Core)
    requires c.ctr <= |Rem(start)| && c.ctr < |start.sess| && (start.buf.Some? ==> start.index <= |start.buf.value|)
    ensures var d := Next(Rem(start), c);
            var (inp, got) := NextInput(After(start, c.ctr, c.end));
            && inp == After(start, d.0.ctr, d.0.end)
            && (c.ctr < d.0.ctr ==> got == Some(d.1) && inp.curr == d.1)
            && (c.ctr == d.0.ctr ==> got == None && inp.curr == After(start, c.ctr, c.end).curr)
  {
    var n := c.ctr;
    if start.buf.None? && n < |Rem(start)| && !c.end {
      assert start.hook[n..][1..] == start.hook[n + 1..];
      assert start.hook[..n + 1] == start.hook[..n] + [start.hook[n]];
      assert (start.hook[..n] + start.sess[n..])[n := start.hook[n]] == start.hook[..n + 1] + start.sess[n + 1..];
    }
  }

  /** What stays fixed while one instruction is decoded: the configuration, the input state at its
      first byte, and the program counter. */
  datatype Env = Env(cfg: Config, start: InputState, pc: nat) {
    function Bytes(): seq<byte> { Rem(start) }

    ghost predicate Ok() {
      |start.sess| == SESSION_SIZE && (start.buf.Some? ==> start.index <= |start.buf.value|)
    }
  }

  /** A 64-bit program counter past `len` bytes. */
  function MovedPc(pc: nat, len: nat): nat { (pc + len) % 0x1_0000_0000_0000_0000 }

  function Base(c: Core): Core { c.(insn := NO_INSN) }

  /** The state of a decoder at the start of an instruction, and the input it still gets: none once the
      end flag is set. */
  function Starting(inp: InputState): Core { FRESH.(end := inp.end) }

  function Left(inp: InputState): seq<byte> { if inp.end then [] else Rem(inp) }

  /** With the end flag set the prefix loop ends as it does on an empty input. */
  lemma StartingPrefixes(inp: InputState, cfg: Config)
    ensures DecodePrefixes(Rem(inp), cfg, Starting(inp), 0) == DecodePrefixes(Left(inp), cfg, FRESH, 0)
    ensures inp.end ==>
              && DecodePrefixes(Left(inp), cfg, FRESH, 0).insn.err
              && DecodePrefixes(Left(inp), cfg, FRESH, 0).ctr == 0
  {
  }

  predicate CanReport(inp: InputState) {
    inp.ctr <= |inp.sess| && (inp.buf.Some? ==> inp.ctr <= inp.index <= |inp.buf.value|)
  }

  /** ud_insn_ptr and ud_insn_len: the bytes of the last instruction. */
  function Reported(inp: InputState): seq<byte>
    requires CanReport(inp)
  {
    match inp.buf
    case None => inp.sess[..inp.ctr]
    case Some(buf) => buf[inp.index - inp.ctr..inp.index]
  }

  /** Whatever the input mode, the bytes reported for an instruction are the ones it was decoded from,
      and the next instruction starts right behind them. */
  lemma ReportedBytes(start: InputState, n: nat, end: bool)
    requires n <= |Rem(start)| && n <= |start.sess| && (start.buf.Some? ==> start.index <= |start.buf.value|)
    ensures CanReport(After(start, n, end)) && Reported(After(start, n, end)) == Rem(start)[..n]
    ensures Rem(After(start, n, end)) == Rem(start)[n..]
  {
  }

  /** No operand has been decoded yet. */
  predicate Blank(c: Core) { c.insn.op0 == CLEARED && c.insn.op1 == CLEARED && c.insn.op2 == CLEARED }

  class Ud {
    const flat: Flat
    var inp: InputState
    var insn: Instr
    var haveModrm: bool
    var oprMode: nat
    var adrMode: nat
    var modrm: byte
    var primaryOpcode: byte
    var le: nat
    var disMode: DisMode
    var vendor: VendorTag
    var pc: nat
    var insnOffset: nat

    /** The object is in state `c`. */
    ghost predicate Models(env: Env, c: Core)
      reads this
    {
      insn == c.insn && Around(env, Base(c))
    }

    /** Everything but the fields of the instruction itself. */
    ghost predicate Around(env: Env, c: Core)
      reads `inp, `haveModrm, `modrm, `oprMode, `adrMode, `primaryOpcode, `disMode, `vendor, `pc
    {
      && disMode == env.cfg.mode && vendor == env.cfg.vendor && pc == env.pc
      && env.Ok() && c.ctr <= |env.Bytes()| && c.ctr <= SESSION_SIZE
      && inp == After(env.start, c.ctr, c.end) && (c.ctr > 0 ==> inp.curr == c.curr)
      && haveModrm == c.modrm.Some? && (c.modrm.Some? ==> modrm == c.modrm.value)
      && (c.oprMode != 0 ==> oprMode == c.oprMode) && (c.adrMode != 0 ==> adrMode == c.adrMode)
      && (c.primary.Some? ==> primaryOpcode == c.primary.value)
    }

    // ----- Input ----------------------------------------------------------------

    method InpNext(ghost env: Env, ghost c: Core) returns (b: byte)
      requires Models(env, c) && c.ctr < SESSION_SIZE
      modifies `inp, `insn
      ensures Models(env, Next(env.Bytes(), c).0) && b == Next(env.Bytes(), c).1
    {
      NextInputAfter(env.start, c);
      var (next, got) := NextInput(inp);
      inp := next;
      if got.None? {
        insn := insn.(err := true);
        return 0;
      }
      b := got.value;
    }

    method InpUint16(ghost env: Env, ghost c: Core) returns (v: nat)
      requires Models(env, c) && c.ctr + 2 <= SESSION_SIZE
      modifies `inp, `insn
      ensures Models(env, Uint(env.Bytes(), c, 2).0) && v == Uint(env.Bytes(), c, 2).1
    {
      ghost var c1 := Next(env.Bytes(), c).0;
      var b0: nat := InpNext(env, c);
      var b1: nat := InpNext(env, c1);
      UintOne(env.Bytes(), c1);
      v := b0 + 256 * b1;
    }

    method InpUint32(ghost env: Env, ghost c: Core) returns (v: nat)
      requires Models(env, c) && c.ctr + 4 <= SESSION_SIZE
      modifies `inp, `insn
      ensures Models(env, Uint(env.Bytes(), c, 4).0) && v == Uint(env.Bytes(), c, 4).1
    {
      UintHalves(env.Bytes(), c, 2);
      var lo := InpUint16(env, c);
      var hi := InpUint16(env, Uint(env.Bytes(), c, 2).0);
      v := lo + 0x1_0000 * hi;
    }

    method InpUint64(ghost env: Env, ghost c: Core) returns (v: nat)
      requires Models(env, c) && c.ctr + 8 <= SESSION_SIZE
      modifies `inp, `insn
      ensures Models(env, Uint(env.Bytes(), c, 8).0) && v == Uint(env.Bytes(), c, 8).1
    {
      UintHalves(env.Bytes(), c, 4);
      var lo := InpUint32(env, c);
      var hi := InpUint32(env, Uint(env.Bytes(), c, 4).0);
      v := lo + 0x1_0000_0000 * hi;
    }

    method Modrm(ghost env: Env, ghost c: Core) returns (b: byte)
      requires Models(env, c) && Potential(c) <= SESSION_SIZE
      modifies `inp, `insn, `modrm, `haveModrm
      ensures Models(env, DecoderState.Modrm(env.Bytes(), c).0) && b == DecoderState.Modrm(env.Bytes(), c).1
    {
      if !haveModrm {
        modrm := InpNext(env, c);
        haveModrm := true;
      }
      b := modrm;
    }

    /** The read of decode_imm and decode_mem_disp for one of the four widths. */
    method InpWidth(ghost env: Env, ghost c: Core, size: nat) returns (v: nat)
      requires Models(env, c) && Width(size) && 8 * c.ctr + size <= 8 * SESSION_SIZE
      modifies `inp, `insn
      ensures Models(env, Uint(env.Bytes(), c, size / 8).0) && v == Uint(env.Bytes(), c, size / 8).1
    {
      if size == 8 {
        UintOne(env.Bytes(), c);
        v := InpNext(env, c);
      } else if size == 16 {
        v := InpUint16(env, c);
      } else if size == 32 {
        v := InpUint32(env, c);
      } else {
        v := InpUint64(env, c);
      }
    }

    // ----- Operands -----------------------------------------------------------------

    /** Operands are decoded with the modes resolved and with room for what may follow. */
    ghost predicate Operating(env: Env, c: Core, room: nat)
      reads this
    {
      Models(env, c) && c.oprMode != 0 && c.adrMode != 0 && Potential(c) + room <= SESSION_SIZE
    }

    method DecodeReg(ghost env: Env, ghost c: Core, op: Operand, cls: RegClass, num: nat, size: nat)
      returns (r: Operand)
      requires Operating(env, c, 0)
      modifies `insn
      ensures Models(env, Operands.DecodeReg(env.cfg, c, op, cls, num, size).0)
      ensures r == Operands.DecodeReg(env.cfg, c, op, cls, num, size).1
    {
      var sz := SizeIn(disMode, oprMode, size);
      if cls == SegClass && num % 8 > 5 {
        insn := insn.(err := true);
        return op;
      }
      r := op.(ty := RegOp, base := PlainReg(disMode, insn.rex, cls, num, sz), size := sz % 256);
    }

    method DecodeModrmReg(ghost env: Env, ghost c: Core, op: Operand, cls: RegClass, size: nat) returns (r: Operand)
      requires Operating(env, c, 0)
      modifies `inp, `insn, `modrm, `haveModrm
      ensures Models(env, Operands.DecodeModrmReg(env.Bytes(), env.cfg, c, op, cls, size).0)
      ensures r == Operands.DecodeModrmReg(env.Bytes(), env.cfg, c, op, cls, size).1
    {
      ghost var c1 := DecoderState.Modrm(env.Bytes(), c).0;
      var m := Modrm(env, c);
      r := DecodeReg(env, c1, op, cls, RexR(insn.rex) * 8 + RegOf(m), size);
    }

    method DecodeImm(ghost env: Env, ghost c: Core, op: Operand, size: nat) returns (r: Operand)
      requires Operating(env, c, 8)
      modifies `inp, `insn
      ensures Models(env, Operands.DecodeImm(env.Bytes(), env.cfg, c, op, size).0)
      ensures r == Operands.DecodeImm(env.Bytes(), env.cfg, c, op, size).1
    {
      var sz := SizeIn(disMode, oprMode, size) % 256;
      r := op.(size := sz, ty := ImmOp);
      if Width(sz) {
        var v := InpWidth(env, c, sz);
        r := r.(lval := v);
      }
    }

    method DecodeMemDisp(ghost env: Env, ghost c: Core, op: Operand, size: nat) returns (r: Operand)
      requires Models(env, c) && (Width(size) ==> 8 * c.ctr + size <= 8 * SESSION_SIZE)
      modifies `inp, `insn
      ensures Models(env, DecodeDisp(env.Bytes(), c, op, size).0) && r == DecodeDisp(env.Bytes(), c, op, size).1
    {
      r := op;
      if Width(size) {
        var v := InpWidth(env, c, size);
        r := r.(offset := size, lval := v);
      }
    }

    method DecodeA(ghost env: Env, ghost c: Core, op: Operand) returns (r: Operand)
      requires Operating(env, c, 6)
      modifies `inp, `insn
      ensures Models(env, DecodeFar(env.Bytes(), c, op).0) && r == DecodeFar(env.Bytes(), c, op).1
    {
      var off, seg;
      if oprMode == 16 {
        off := InpUint16(env, c);
        seg := InpUint16(env, Uint(env.Bytes(), c, 2).0);
        r := op.(ty := PtrOp, size := 32, lval := off, ptrSeg := seg);
      } else {
        off := InpUint32(env, c);
        seg := InpUint16(env, Uint(env.Bytes(), c, 4).0);
        r := op.(ty := PtrOp, size := 48, lval := off, ptrSeg := seg);
      }
    }

    /** The address forms of decode_modrm_rm, with the SIB byte already current. */
    method MemAddress(mod: nat, rm: nat) returns (a: Address)
      requires mod <= 2 && rm < 16
      ensures a == if adrMode == 64 then Address64(mod, rm, inp.curr, insn.rex)
                   else if adrMode == 32 then Address32(mod, rm, inp.curr, insn.rex)
                   else Address16(mod, rm)
    {
      var base, index, scale, offset := NoReg, NoReg, 0, 0;
      var sib := inp.curr;
      if adrMode == 64 {
        base := Gpr64(rm);
        if mod == 1 { offset := 8; }
        else if mod == 2 { offset := 32; }
        else if rm % 8 == 5 { base := Rip; offset := 32; }
        if rm % 8 == 4 {
          scale := ScaleOf(sib);
          index := Gpr64((sib / 8) % 8 + 8 * RexX(insn.rex));
          base := Gpr64(sib % 8 + 8 * RexB(insn.rex));
          if index == Gpr64(4) { index := NoReg; scale := 0; }
          if base == Gpr64(5) || base == Gpr64(13) {
            if mod == 0 { base := NoReg; }
            offset := if mod == 1 then 8 else 32;
          }
        }
      } else if adrMode == 32 {
        base := Gpr32(rm);
        if mod == 1 { offset := 8; }
        else if mod == 2 { offset := 32; }
        else if rm == 5 { base := NoReg; offset := 32; }
        if rm % 8 == 4 {
          scale := ScaleOf(sib);
          index := Gpr32((sib / 8) % 8 + 8 * RexX(insn.rex));
          base := Gpr32(sib % 8 + 8 * RexB(insn.rex));
          if index == Gpr32(4) { index := NoReg; scale := 0; }
          if base == Gpr32(5) {
            if mod == 0 { base := NoReg; }
            offset := if mod == 1 then 8 else 32;
          }
        }
      } else {
        base := Base16(rm % 8);
        index := Index16(rm % 8);
        if mod == 0 && rm == 6 { offset := 16; base := NoReg; }
        else if mod == 1 { offset := 8; }
        else if mod == 2 { offset := 16; }
      }
      a := Address(base, index, scale, offset);
    }

    /** The SIB byte, where the form has one. */
    method ReadSib(ghost env: Env, ghost c: Core, rm: nat)
      requires Operating(env, c, 5) && c.ctr > 0
      modifies `inp, `insn
      ensures Operating(env, if NeedsSib(c, rm) then Next(env.Bytes(), c).0 else c, 4)
      ensures Models(env, if NeedsSib(c, rm) then Next(env.Bytes(), c).0 else c)
    {
      if (adrMode == 64 || adrMode == 32) && rm % 8 == 4 {
        var sib := InpNext(env, c);
      }
    }

    method DecodeMem(ghost env: Env, ghost c: Core, op: Operand, mod: nat, rm: nat, size: nat) returns (r: Operand)
      requires Operating(env, c, 5) && mod <= 2 && rm < 16 && c.ctr > 0
      modifies `inp, `insn
      ensures Models(env, Operands.DecodeMem(env.Bytes(), env.cfg, c, op, mod, rm, size).0)
      ensures r == Operands.DecodeMem(env.Bytes(), env.cfg, c, op, mod, rm, size).1
    {
      r := op.(ty := MemOp, size := SizeIn(disMode, oprMode, size) % 256);
      ghost var c1 := if NeedsSib(c, rm) then Next(env.Bytes(), c).0 else c;
      ReadSib(env, c, rm);
      var a := MemAddress(mod, rm);
      r := r.(base := a.base, index := a.index, scale := a.scale);
      if a.offset != 0 {
        r := DecodeMemDisp(env, c1, r, a.offset);
      }
    }

    method DecodeModrmRm(ghost env: Env, ghost c: Core, op: Operand, cls: RegClass, size: nat) returns (r: Operand)
      requires Operating(env, c, 5) && c.ctr > 0
      modifies `inp, `insn, `modrm, `haveModrm
      ensures Models(env, Operands.DecodeModrmRm(env.Bytes(), env.cfg, c, op, cls, size).0)
      ensures r == Operands.DecodeModrmRm(env.Bytes(), env.cfg, c, op, cls, size).1
    {
      ghost var c1 := DecoderState.Modrm(env.Bytes(), c).0;
      var m := Modrm(env, c);
      var rm := RexB(insn.rex) * 8 + RmOf(m);
      if ModOf(m) == 3 {
        r := DecodeReg(env, c1, op, cls, rm, size);
      } else {
        r := DecodeMem(env, c1, op, ModOf(m), rm, size);
      }
    }

    method DecodeRmChecked(ghost env: Env, ghost c: Core, op: Operand, cls: RegClass, size: nat, want3: bool)
      returns (r: Operand)
      requires Operating(env, c, 5) && c.ctr > 0
      modifies `inp, `insn, `modrm, `haveModrm
      ensures Models(env, Operands.DecodeRmChecked(env.Bytes(), env.cfg, c, op, cls, size, want3).0)
      ensures r == Operands.DecodeRmChecked(env.Bytes(), env.cfg, c, op, cls, size, want3).1
    {
      ghost var c1 := DecoderState.Modrm(env.Bytes(), c).0;
      var m := Modrm(env, c);
      if (ModOf(m) == 3) != want3 {
        insn := insn.(err := true);
        c1 := Fail(c1);
      }
      r := DecodeModrmRm(env, c1, op, cls, size);
    }

    method DecodeRmSized(ghost env: Env, ghost c: Core, op: Operand, cls: RegClass, size: nat) returns (r: Operand)
      requires Operating(env, c, 5) && c.ctr > 0
      modifies `inp, `insn, `modrm, `haveModrm
      ensures Models(env, Operands.DecodeRmSized(env.Bytes(), env.cfg, c, op, cls, size).0)
      ensures r == Operands.DecodeRmSized(env.Bytes(), env.cfg, c, op, cls, size).1
    {
      ghost var c1 := DecoderState.Modrm(env.Bytes(), c).0;
      var m := Modrm(env, c);
      r := DecodeModrmRm(env, c1, op, cls, if ModOf(m) == 3 then RegSize(size) else MemSize(size));
    }

    /** Operands given by the r/m field. */
    method DecodeRmOperand(ghost env: Env, ghost c: Core, op: Operand, spec: OperandSpec) returns (r: Operand)
      requires Operating(env, c, 8) && c.ctr > 0 && op == CLEARED.(code := spec.code)
      modifies `inp, `insn, `modrm, `haveModrm
      ensures Models(env, Operands.DecodeRmOperand(env.Bytes(), env.cfg, c, op, spec).0)
      ensures r == Operands.DecodeRmOperand(env.Bytes(), env.cfg, c, op, spec).1
    {
      var code, cls := spec.code, RmClass(spec.code);
      if code == OpMR || code == OpMU {
        r := DecodeRmSized(env, c, op, cls, spec.size);
      } else if code == OpE || code == OpQ || code == OpW {
        r := DecodeModrmRm(env, c, op, cls, spec.size);
      } else if code == OpF {
        insn := insn.(brFar := true);
        r := DecodeRmChecked(env, c.(insn := c.insn.(brFar := true)), op, cls, spec.size, false);
      } else {
        r := DecodeRmChecked(env, c, op, cls, spec.size, code != OpM);
      }
    }

    /** Operands read straight from the input. */
    method DecodeInlineOperand(ghost env: Env, ghost c: Core, op: Operand, spec: OperandSpec) returns (r: Operand)
      requires Operating(env, c, 8) && op == CLEARED.(code := spec.code)
      modifies `inp, `insn
      ensures Models(env, Operands.DecodeInlineOperand(env.Bytes(), env.cfg, c, op, spec).0)
      ensures r == Operands.DecodeInlineOperand(env.Bytes(), env.cfg, c, op, spec).1
    {
      if spec.code == OpA {
        r := DecodeA(env, c, op);
      } else if spec.code == OpO {
        r := DecodeMemDisp(env, c, op.(ty := MemOp, size := SizeIn(disMode, oprMode, spec.size) % 256), adrMode);
      } else {
        r := DecodeImm(env, c, op, spec.size);
        if spec.code == OpJ {
          r := r.(ty := JimmOp);
        }
      }
    }

    /** Operands that the opcode itself says. */
    method DecodeImpliedOperand(ghost env: Env, ghost c: Core, op: Operand, spec: OperandSpec) returns (r: Operand)
      requires Operating(env, c, 8) && op == CLEARED.(code := spec.code)
      modifies `insn
      ensures Models(env, Operands.DecodeImpliedOperand(env.cfg, c, op, spec).0)
      ensures r == Operands.DecodeImpliedOperand(env.cfg, c, op, spec).1
    {
      match spec.code {
        case OpI1 => r := op.(ty := ConstOp, lval := 1);
        case OpI3 => r := op.(ty := ConstOp, lval := 3);
        case OpRn(n) => r := DecodeReg(env, c, op, GprClass, RexB(insn.rex) * 8 + n, spec.size);
        case Fixed(n) => r := DecodeReg(env, c, op, GprClass, n, spec.size);
        case SegReg(n) =>
          if disMode == 64 && n != 4 && n != 5 {
            insn := insn.(err := true);
          }
          r := op.(ty := RegOp, base := Seg(n), size := 16);
        case OpST(n) => r := op.(ty := RegOp, base := St(n), size := 80);
        case _ => r := op;
      }
    }

    method DecodeOperand(ghost env: Env, ghost c: Core, cleared: Operand, spec: OperandSpec) returns (r: Operand)
      requires Operating(env, c, 8) && c.ctr > 0 && cleared == CLEARED
      modifies `inp, `insn, `modrm, `haveModrm
      ensures Models(env, Operands.DecodeOperand(env.Bytes(), env.cfg, c, spec).0)
      ensures r == Operands.DecodeOperand(env.Bytes(), env.cfg, c, spec).1
    {
      var op := cleared.(code := spec.code);
      if IsRmCode(spec.code) {
        r := DecodeRmOperand(env, c, op, spec);
      } else if IsRegCode(spec.code) {
        r := DecodeModrmReg(env, c, op, RegFieldClass(spec.code), spec.size);
      } else if IsInlineCode(spec.code) {
        r := DecodeInlineOperand(env, c, op, spec);
      } else {
        r := DecodeImpliedOperand(env, c, op, spec);
      }
    }

    method DecodeOperands(ghost env: Env, ghost c: Core, e: Entry)
      requires Operating(env, c, 24) && c.ctr > 0 && Blank(c)
      modifies `inp, `insn, `modrm, `haveModrm
      ensures Models(env, Operands.DecodeOperands(env.Bytes(), env.cfg, c, e))
    {
      ghost var c0 := Operands.DecodeOperand(env.Bytes(), env.cfg, c, e.operand1);
      var a := DecodeOperand(env, c, insn.op0, e.operand1);
      insn := insn.(op0 := a);
      DecodeLastTwo(env, c0.0.(insn := c0.0.insn.(op0 := a)), e);
    }

    method DecodeLastTwo(ghost env: Env, ghost c: Core, e: Entry)
      requires Operating(env, c, 16) && c.ctr > 0 && c.insn.op1 == CLEARED && c.insn.op2 == CLEARED
      modifies `inp, `insn, `modrm, `haveModrm
      ensures Models(env, Operands.DecodeLastTwo(env.Bytes(), env.cfg, c, e))
    {
      ghost var c1 := Operands.DecodeOperand(env.Bytes(), env.cfg, c, e.operand2);
      var a := DecodeOperand(env, c, insn.op1, e.operand2);
      insn := insn.(op1 := a);
      ghost var c1' := c1.0.(insn := c1.0.insn.(op1 := a));
      var b := DecodeOperand(env, c1', insn.op2, e.operand3);
      insn := insn.(op2 := b);
    }

    // ----- One table row -------------------------------------------------------------

    method ResolvePfxStr(ghost env: Env, ghost c: Core, p: PrefixBits)
      requires Models(env, c)
      modifies `insn
      ensures Models(env, ResolveStr(c, p))
    {
      if insn.str == 0xF3 {
        if p.str {
          insn := insn.(rep := 0xF3);
        } else {
          insn := insn.(repe := 0xF3);
        }
      } else if insn.str == 0xF2 {
        insn := insn.(repne := 0xF3);
      }
    }

    method ResolveModes(ghost env: Env, ghost c: Core, p: PrefixBits) returns (ok: bool)
      requires Models(env, c)
      modifies `insn, `oprMode, `adrMode
      ensures ok == ResolveMode(env.cfg, c, p).Some?
      ensures ok ==> Models(env, ResolveMode(env.cfg, c, p).value)
      ensures !ok ==> Models(env, Fail(c))
    {
      if insn.err {
        return false;
      }
      if disMode == 64 {
        if p.inv64 {
          insn := insn.(err := true);
          return false;
        }
        ResolveModes64(env, c, p);
      } else if disMode == 32 {
        oprMode := if insn.opr != 0 then 16 else 32;
        adrMode := if insn.adr != 0 then 16 else 32;
      } else {
        oprMode := if insn.opr != 0 then 32 else 16;
        adrMode := if insn.adr != 0 then 32 else 16;
      }
      ok := true;
    }

    /** The case of 64-bit mode. */
    method ResolveModes64(ghost env: Env, ghost c: Core, p: PrefixBits)
      requires Models(env, c) && disMode == 64 && !c.insn.err && !p.inv64
      modifies `insn, `oprMode, `adrMode
      ensures Models(env, ResolveMode(env.cfg, c, p).value)
    {
      insn := insn.(rex := EffectiveRex(insn.rex, p));
      if RexW(insn.rex) == 1 { oprMode := 64; }
      else if insn.opr != 0 { oprMode := 16; }
      else { oprMode := if p.def64 then 64 else 32; }
      adrMode := if insn.adr != 0 then 32 else 64;
    }

    method ResolveMnemonic(ghost env: Env, ghost c: Core) returns (ret: int)
      requires Models(env, c)
      modifies `insn
      ensures Models(env, Decoder.ResolveMnemonic(env.cfg, c).0) && ret == Decoder.ResolveMnemonic(env.cfg, c).1
    {
      if insn.mnemonic == Swapgs && disMode != 64 {
        insn := insn.(err := true);
        return -1;
      }
      if insn.mnemonic == Xchg {
        if insn.op0.ty == RegOp && insn.op1.ty == RegOp && insn.op0.base == insn.op1.base &&
           (insn.op0.base == Gpr16(0) || insn.op0.base == Gpr32(0)) {
          insn := insn.(op0 := insn.op0.(ty := NoOperand), op1 := insn.op1.(ty := NoOperand), mnemonic := Nop);
        }
      }
      if insn.mnemonic == Nop && insn.repe != 0 {
        insn := insn.(repe := 0, mnemonic := Pause);
      }
      ret := 0;
    }

    /** decode_insn up to its operands. */
    method EnterEntry(ghost env: Env, ghost c: Core, e: Entry) returns (ok: bool)
      requires Models(env, c)
      modifies `insn, `oprMode, `adrMode
      ensures Models(env, EnterRow(env.cfg, c, e).0) && ok == EnterRow(env.cfg, c, e).1
    {
      insn := insn.(entry := Some(e), mnemonic := e.mnemonic);
      ghost var c0 := c.(insn := c.insn.(entry := Some(e), mnemonic := e.mnemonic));
      ResolvePfxStr(env, c0, e.prefix);
      ok := ResolveModes(env, ResolveStr(c0, e.prefix), e.prefix);
    }

    method DecodeInsn(ghost env: Env, ghost c: Core, e: Entry) returns (ret: int)
      requires Models(env, c) && Potential(c) + 24 <= SESSION_SIZE && c.ctr > 0 && Blank(c)
      modifies `inp, `insn, `modrm, `haveModrm, `oprMode, `adrMode
      ensures Models(env, Decoder.DecodeInsn(env.Bytes(), env.cfg, c, e).0)
      ensures ret == Decoder.DecodeInsn(env.Bytes(), env.cfg, c, e).1
    {
      ghost var c1 := EnterRow(env.cfg, c, e).0;
      var ok := EnterEntry(env, c, e);
      if !ok {
        return -1;
      }
      DecodeOperands(env, c1, e);
      ret := ResolveMnemonic(env, Operands.DecodeOperands(env.Bytes(), env.cfg, c1, e));
    }

    /** decode_3dnow after decode_insn: the byte that names the instruction. */
    method Name3dnow(ghost env: Env, ghost c: Core) returns (ret: int)
      requires WfFlat(flat) && le < |flat.tables| && flat.tables[le].kind == ThreeDNow
      requires Models(env, c) && c.ctr < SESSION_SIZE && c.ctr > 0
      modifies `inp, `insn
      ensures var d := NameInsn(env.Bytes(), c, Target3dnow(flat, le).names); Models(env, d.0) && ret == d.1
    {
      var b := InpNext(env, c);
      if insn.err {
        return -1;
      }
      b := inp.curr;
      assert WfTable(flat, le);
      assert WfEntry(flat, le, b, flat.tables[le].row[b]);
      insn := insn.(mnemonic := flat.itab[flat.tables[le].row[b]].mnemonic);
      ret := 0;
    }

    method Decode3dnow(ghost env: Env, ghost c: Core) returns (ret: int)
      requires WfFlat(flat) && le < |flat.tables| && flat.tables[le].kind == ThreeDNow
      requires Models(env, c) && Potential(c) + 25 <= SESSION_SIZE && c.ctr > 0 && Blank(c)
      modifies `inp, `insn, `modrm, `haveModrm, `oprMode, `adrMode
      ensures var d := Execute(env.Bytes(), env.cfg, c, Target3dnow(flat, le)); Models(env, d.0) && ret == d.1
    {
      assert WfTable(flat, le);
      assert WfEntry(flat, le, 0x0c, flat.tables[le].row[0x0c]);
      var sample := flat.itab[flat.tables[le].row[0x0c]];
      ret := DecodeInsn(env, c, sample);
      ret := Name3dnow(env, Decoder.DecodeInsn(env.Bytes(), env.cfg, c, sample).0);
    }

    // ----- Tables ----------------------------------------------------------------------

    /** decode_ssepfx up to its choice. */
    method SsepfxIndex(ghost env: Env, ghost c: Core, row: seq<nat>) returns (idx: nat)
      requires Models(env, c) && MayEnter(Sse, c) && |row| == 4
      modifies `insn
      ensures var d := Choose(env.Bytes(), env.cfg, c, Sse, SseIndex(c) < |row| && row[SseIndex(c)] != 0);
              Models(env, d.0) && idx == d.1
    {
      var pfx := if insn.str != 0 then insn.str else insn.opr;
      idx := (pfx % 16 + 1) / 2;
      if row[idx] == 0 {
        idx := 0;
      }
      if idx != 0 {
        insn := insn.(str := 0, opr := if pfx == 0x66 then 0 else insn.opr);
      }
    }

    /** The switch of decode_ext over the kinds of tables. */
    method ExtIndex(ghost env: Env, ghost c: Core, kind: TableKind, row: seq<nat>) returns (idx: nat)
      requires Models(env, c) && MayEnter(kind, c) && kind != ThreeDNow && |row| == SizeOf(kind)
      requires Potential(c) <= SESSION_SIZE
      modifies `inp, `insn, `modrm, `haveModrm
      ensures var d := Choose(env.Bytes(), env.cfg, c, kind, Probe(kind, c) < |row| && row[Probe(kind, c)] != 0);
              Models(env, d.0) && idx == d.1
    {
      match kind {
        case Mod => var m := Modrm(env, c); idx := (ModOf(m) + 1) / 4;
        case Mode => idx := if disMode != 64 then 0 else 1;
        case OSize => idx := EffOprMode(disMode, RexW(insn.rex), insn.opr) / 32;
        case ASize => idx := EffAdrMode(disMode, insn.adr) / 32;
        case X87 => var m := Modrm(env, c); idx := m - 0xC0;
        case Vendor =>
          idx := if vendor == AnyVendor then (if row[0] != 0 then 0 else 1) else if vendor == Amd then 0 else 1;
        case Rm => var m := Modrm(env, c); idx := RmOf(m);
        case Reg => var m := Modrm(env, c); idx := RegOf(m);
        case Sse => idx := SsepfxIndex(env, c, row);
      }
    }

    /** decode_ext: the walk to a row or a 3DNow table, which the caller then decodes. */
    method DecodeExt(ghost env: Env, ghost c: Core, ptr: nat) returns (leaf: nat, ghost d: Core)
      requires WfFlat(flat) && ValidPtr(flat, c, ptr)
      requires Models(env, c) && Potential(c) <= SESSION_SIZE
      modifies `inp, `insn, `modrm, `haveModrm, `le
      ensures IsLeaf(flat, leaf) && Models(env, d) && (IsGroup(leaf) ==> le == leaf - GROUP_BIT)
      ensures WalkExt(flat, env.Bytes(), env.cfg, c, ptr) == (d, TargetAt(flat, leaf)) && SameOperands(c, d)
      decreases Ahead(flat, ptr)
    {
      if ptr < GROUP_BIT {
        return ptr, c;
      }
      le := ptr - GROUP_BIT;
      if flat.tables[le].kind == ThreeDNow {
        return ptr, c;
      }
      ghost var c1 := ExtStep(flat, env.Bytes(), env.cfg, c, le).0;
      FlatGoesOn(flat, env.Bytes(), env.cfg, c, le);
      var next := ExtEntry(env, c);
      leaf, d := DecodeExt(env, c1, next);
    }

    /** The entry that the current extension table gives. */
    method ExtEntry(ghost env: Env, ghost c: Core) returns (next: nat)
      requires WfFlat(flat) && le < |flat.tables| && flat.tables[le].kind != ThreeDNow
      requires MayEnter(flat.tables[le].kind, c) && Models(env, c) && Potential(c) <= SESSION_SIZE
      modifies `inp, `insn, `modrm, `haveModrm
      ensures var r := ExtStep(flat, env.Bytes(), env.cfg, c, le); Models(env, r.0) && next == r.1
    {
      assert WfTable(flat, le);
      var idx := ExtIndex(env, c, flat.tables[le].kind, flat.tables[le].row);
      next := flat.tables[le].row[idx];
    }

    /** The entry of the current opcode table for the current byte. */
    method OpcodePtr(ghost env: Env, ghost c: Core) returns (ptr: nat)
      requires WfFlat(flat) && le < |flat.tables| && flat.tables[le].kind == OpcTbl
      requires Entering(c) && Models(env, c) && c.ctr > 0
      modifies `primaryOpcode
      ensures Models(env, c.(primary := Some(c.curr))) && ptr == OpcodeEntry(flat, c, le)
    {
      primaryOpcode := inp.curr;
      assert WfTable(flat, le);
      ptr := flat.tables[le].row[inp.curr];
    }

    /** decode_opcode up to the leaf; None stands for its early error return. */
    method DecodeOpcode(ghost env: Env, ghost c: Core, ghost depth: nat) returns (leaf: Option<nat>, ghost d: Core)
      requires WfFlat(flat) && le < |flat.tables| && flat.tables[le].kind == OpcTbl && Nested(flat, le, depth)
      requires Entering(c) && Models(env, c) && Potential(c) + depth - 1 <= SESSION_SIZE && (c.ctr > 0 || c.insn.err)
      modifies `inp, `insn, `modrm, `haveModrm, `le, `primaryOpcode
      ensures Models(env, d) && SameOperands(c, d)
      ensures leaf.Some? ==> IsLeaf(flat, leaf.value) && (IsGroup(leaf.value) ==> le == leaf.value - GROUP_BIT)
      ensures WalkOpcode(flat, env.Bytes(), env.cfg, c, old(le)) ==
              (d, if leaf.Some? then Some(TargetAt(flat, leaf.value)) else None)
      decreases depth, 1
    {
      if insn.err {
        return None, c;
      }
      ghost var c1 := c.(primary := Some(c.curr));
      var ptr := OpcodePtr(env, c);
      if ptr >= GROUP_BIT && flat.tables[ptr - GROUP_BIT].kind == OpcTbl {
        leaf, d := DecodeNested(env, c1, ptr, depth - 1);
      } else {
        var p;
        p, d := DecodeExt(env, c1, ptr);
        leaf := Some(p);
      }
    }

    /** The case of another opcode table: the next byte is looked up there. */
    method DecodeNested(ghost env: Env, ghost c: Core, ptr: nat, ghost depth: nat)
      returns (leaf: Option<nat>, ghost d: Core)
      requires WfFlat(flat) && NextOpcodeTable(flat, ptr) && Nested(flat, ptr - GROUP_BIT, depth)
      requires Entering(c) && Models(env, c) && Potential(c) + depth <= SESSION_SIZE && c.ctr > 0
      modifies `inp, `insn, `modrm, `haveModrm, `le, `primaryOpcode
      ensures Models(env, d) && SameOperands(c, d)
      ensures leaf.Some? ==> IsLeaf(flat, leaf.value) && (IsGroup(leaf.value) ==> le == leaf.value - GROUP_BIT)
      ensures WalkOpcode(flat, env.Bytes(), env.cfg, Next(env.Bytes(), c).0, ptr - GROUP_BIT) ==
              (d, if leaf.Some? then Some(TargetAt(flat, leaf.value)) else None)
      decreases depth, 2
    {
      le := ptr - GROUP_BIT;
      var b := InpNext(env, c);
      leaf, d := DecodeOpcode(env, Next(env.Bytes(), c).0, depth);
    }

    // ----- Prefixes ---------------------------------------------------------------------

    /** The switch of decode_prefixes: record a legacy prefix, if the byte is one. */
    method TakePrefix(ghost env: Env, ghost c: Core, b: byte) returns (taken: bool)
      requires Models(env, c)
      modifies `insn
      ensures taken == NotePrefix(c, b).Some?
      ensures Models(env, if taken then NotePrefix(c, b).value else c)
    {
      var noted := WithPrefix(insn, b);
      taken := noted.Some?;
      if taken {
        insn := noted.value;
      }
    }

    /** One turn of the loop of decode_prefixes; `more` says that the loop goes on. */
    method PrefixTurn(ghost env: Env, ghost c: Core, last: byte) returns (b: byte, more: bool, ghost d: Core)
      requires Models(env, c) && c.ctr < MAX_INSN_LENGTH
      modifies `inp, `insn
      ensures Models(env, d)
      ensures more ==> c.ctr < d.ctr < MAX_INSN_LENGTH &&
                       DecodePrefixes(env.Bytes(), env.cfg, c, last) == DecodePrefixes(env.Bytes(), env.cfg, d, b)
      ensures !more ==> DecodePrefixes(env.Bytes(), env.cfg, c, last) == d
    {
      d := Next(env.Bytes(), c).0;
      more := false;
      b := InpNext(env, c);
      if insn.err {
        return;
      }
      if inp.ctr == MAX_INSN_LENGTH {
        insn := insn.(err := true);
        d := Fail(d);
        return;
      }
      ghost var c1 := d;
      var taken := TakePrefix(env, c1, b);
      if taken {
        d := NotePrefix(c1, b).value;
        more := true;
      } else if disMode == 64 && b / 16 == 4 {
        more := true;
      } else if disMode == 64 && last / 16 == 4 {
        insn := insn.(rex := last);
        d := d.(insn := d.insn.(rex := last));
      }
    }

    method ReadPrefixes(ghost env: Env, ghost c: Core)
      requires Models(env, c) && c.ctr < MAX_INSN_LENGTH
      modifies `inp, `insn
      ensures Models(env, DecodePrefixes(env.Bytes(), env.cfg, c, 0))
    {
      var more, last, curr := true, 0, 0;
      ghost var d := c;
      while more
        invariant Models(env, d)
        invariant more ==> d.ctr < MAX_INSN_LENGTH &&
                           DecodePrefixes(env.Bytes(), env.cfg, c, 0) == DecodePrefixes(env.Bytes(), env.cfg, d, curr)
        invariant !more ==> DecodePrefixes(env.Bytes(), env.cfg, c, 0) == d
        decreases more, MAX_INSN_LENGTH - d.ctr
      {
        last := curr;
        curr, more, d := PrefixTurn(env, d, last);
      }
    }

    // ----- One instruction ---------------------------------------------------------------

    /** Run the decoder on what the walk arrived at. */
    method DecodeLeaf(ghost env: Env, ghost c: Core, leaf: Option<nat>) returns (ret: int)
      requires WfFlat(flat) && (leaf.Some? ==> IsLeaf(flat, leaf.value))
      requires leaf.Some? && IsGroup(leaf.value) ==> le == leaf.value - GROUP_BIT
      requires Models(env, c) && Potential(c) + 25 <= SESSION_SIZE && (leaf.Some? ==> c.ctr > 0) && Blank(c)
      modifies `inp, `insn, `modrm, `haveModrm, `oprMode, `adrMode
      ensures var r := Arrive(env.Bytes(), env.cfg, c, if leaf.Some? then Some(TargetAt(flat, leaf.value)) else None);
              Models(env, r.0) && ret == r.1
    {
      if leaf.None? {
        ret := 1;
      } else if leaf.value >= GROUP_BIT {
        ret := Decode3dnow(env, c);
      } else {
        ret := DecodeInsn(env, c, flat.itab[leaf.value]);
      }
    }

    method ClearInsn(ghost env: Env, ghost c: Core)
      requires Models(env, c)
      modifies `insn, `haveModrm
      ensures Models(env, Decoder.ClearInsn(c)) && insn == NO_INSN
    {
      insn := NO_INSN;
      haveModrm := false;
    }

    /** The tail of ud_decode. */
    method FinishDecode(ghost env: Env, ghost c: Core, ret: int)
      requires WfFlat(flat) && Models(env, c)
      modifies `insn, `haveModrm
      ensures Models(env, Finish(flat.itab[0], c, ret))
    {
      if ret == -1 || insn.err {
        ClearInsn(env, c);
        insn := insn.(entry := Some(flat.itab[0]), mnemonic := flat.itab[0].mnemonic);
      }
      var e := if insn.entry.Some? then insn.entry.value else flat.itab[0];
      if !e.prefix.seg && insn.op0.ty != MemOp && insn.op1.ty != MemOp {
        insn := insn.(seg := NoReg);
      }
    }

    /** Ready to decode the next instruction with tables nested at most `depth` deep. */
    ghost predicate Ready(depth: nat)
      reads this
    {
      && WfFlat(flat) && 1 <= depth <= 25 && Nested(flat, 0, depth)
      && |inp.sess| == SESSION_SIZE && (inp.buf.Some? ==> inp.index <= |inp.buf.value|)
    }

    /** Prefixes, opcode and operands. */
    method DecodeParts(ghost env: Env, ghost depth: nat) returns (ret: int)
      requires WfFlat(flat) && 1 <= depth <= 25 && Nested(flat, 0, depth)
      requires Models(env, Starting(env.start)) && le == 0
      modifies `inp, `insn, `modrm, `haveModrm, `oprMode, `adrMode, `le, `primaryOpcode
      ensures var (c, t) := Walk(flat, env.cfg, Left(env.start));
              var r := Arrive(Left(env.start), env.cfg, c, t);
              Models(env, r.0) && ret == r.1
    {
      ghost var c := DecodePrefixes(Left(env.start), env.cfg, FRESH, 0);
      StartingPrefixes(env.start, env.cfg);
      ReadPrefixes(env, Starting(env.start));
      PrefixesEntering(Left(env.start), env.cfg, FRESH, 0);
      WalkOpcodeLength(flat, env.Bytes(), env.cfg, c, 0, depth);
      var leaf;
      ghost var d;
      leaf, d := DecodeOpcode(env, c, depth);
      ret := DecodeLeaf(env, d, leaf);
    }

    /** ud_decode between inp_start and the program counter's update. */
    method DecodeFresh(ghost env: Env, ghost depth: nat)
      requires WfFlat(flat) && 1 <= depth <= 25 && Nested(flat, 0, depth)
      requires Models(env, Starting(env.start)) && le == 0
      modifies `inp, `insn, `modrm, `haveModrm, `oprMode, `adrMode, `le, `primaryOpcode
      ensures Models(env, Decode(flat, env.cfg, Left(env.start)))
    {
      ghost var (c, t) := Walk(flat, env.cfg, Left(env.start));
      var ret := DecodeParts(env, depth);
      FinishDecode(env, Arrive(Left(env.start), env.cfg, c, t).0, ret);
    }

    /** inp_start and clear_insn. */
    method BeginInsn() returns (ghost env: Env)
      requires |inp.sess| == SESSION_SIZE && (inp.buf.Some? ==> inp.index <= |inp.buf.value|)
      modifies `inp, `insn, `haveModrm, `le
      ensures env == Env(Config(disMode, vendor), old(inp).(ctr := 0), pc) && Left(env.start) == Left(old(inp))
      ensures Models(env, Starting(env.start)) && le == 0
    {
      inp := inp.(ctr := 0);
      insn := NO_INSN;
      haveModrm := false;
      le := 0;
      env := Env(Config(disMode, vendor), inp, pc);
      assert Base(Starting(inp)) == Starting(inp);
    }

    /** Set the instruction's offset and move the program counter past it. */
    method MovePc(ghost env: Env, ghost d: Core, ghost start: InputState, ghost depth: nat) returns (len: nat)
      requires Models(env, d) && env.start == start.(ctr := 0)
      requires WfFlat(flat) && 1 <= depth <= 25 && Nested(flat, 0, depth)
      modifies `insnOffset, `pc
      ensures Consumed(start, d, len) && disMode == env.cfg.mode && vendor == env.cfg.vendor
      ensures insnOffset == env.pc && pc == MovedPc(env.pc, len)
      ensures Ready(depth)
    {
      insnOffset := pc;
      pc := MovedPc(pc, inp.ctr);
      len := inp.ctr;
    }

    method UdDecode(ghost depth: nat) returns (len: nat)
      requires Ready(depth)
      modifies this
      ensures Ready(depth) && disMode == old(disMode) && vendor == old(vendor)
      ensures Consumed(old(inp), Decode(flat, Config(disMode, vendor), Left(old(inp))), len)
      ensures insnOffset == old(pc) && pc == MovedPc(old(pc), len)
    {
      ghost var env := BeginInsn();
      ghost var d := Decode(flat, env.cfg, Left(env.start));
      DecodeFresh(env, depth);
      len := MovePc(env, d, old(inp), depth);
    }

    /** The object after decoding `d` from the input state `start`. */
    ghost predicate Consumed(start: InputState, d: Core, len: nat)
      reads this
    {
      && len == d.ctr && insn == d.insn && (d.oprMode != 0 ==> oprMode == d.oprMode)
      && d.ctr <= |Rem(start)| && d.ctr <= |start.sess|
      && inp == After(start, d.ctr, d.end)
    }

    method UdDisassemble(ghost depth: nat) returns (len: nat)
      requires Ready(depth)
      modifies this
      ensures Ready(depth) && disMode == old(disMode) && vendor == old(vendor)
      ensures old(inp.end) ==> len == 0 && inp == old(inp) && pc == old(pc)
      ensures !old(inp.end) ==>
                && Consumed(old(inp), Decode(flat, Config(disMode, vendor), Rem(old(inp))), len)
                && pc == (old(pc) + len) % 0x1_0000_0000_0000_0000
    {
      if inp.end {
        return 0;
      }
      len := UdDecode(depth);
    }

    // ----- Interface (udis86.c) ----------------------------------------------------------

    /** ud_init with the tables to use. */
    constructor (tables: Flat)
      ensures flat == tables && |inp.sess| == SESSION_SIZE && inp.buf.None? && !inp.end && disMode == 16 &&
              vendor == Amd && pc == 0
    {
      flat := tables;
      inp := InputState(None, 0, 0, 0, seq(SESSION_SIZE, _ => 0), false, []);
      insn, haveModrm := NO_INSN.(mnemonic := Invalid), false;
      oprMode, adrMode, modrm, primaryOpcode, le := 0, 0, 0, 0, 0;
      disMode, vendor, pc, insnOffset := 16, Amd, 0, 0;
    }

    method SetInputBuffer(buf: seq<byte>)
      modifies `inp
      ensures inp == InputState(Some(buf), 0, 0, 0, old(inp).sess, false, []) && Rem(inp) == buf
    {
      inp := InputState(Some(buf), 0, 0, 0, inp.sess, false, []);
    }

    method SetInputHook(delivers: seq<byte>)
      modifies `inp
      ensures inp == InputState(None, 0, 0, 0, old(inp).sess, false, delivers) && Rem(inp) == delivers
    {
      inp := InputState(None, 0, 0, 0, inp.sess, false, delivers);
    }

    method SetMode(m: nat)
      modifies `disMode
      ensures disMode == if m == 16 || m == 32 || m == 64 then m else 16
    {
      disMode := if m == 16 || m == 32 || m == 64 then m else 16;
    }

    /** ud_input_skip: move past `n` bytes, or to the end of the input with its flag set. */
    method InputSkip(n: nat)
      requires inp.buf.Some? ==> inp.index <= |inp.buf.value|
      modifies `inp, `insn
      ensures old(inp.end) ==> inp == old(inp)
      ensures !old(inp.end) ==> inp.end == (n > |Rem(old(inp))|)
      ensures !old(inp.end) ==> Rem(inp) == if n <= |Rem(old(inp))| then Rem(old(inp))[n..] else []
      ensures inp.buf == old(inp).buf && inp.sess == old(inp).sess && (inp.buf.Some? ==> inp.index <= |inp.buf.value|)
    {
      if inp.end {
        return;
      }
      if inp.buf.None? {
        SkipHook(n);
      } else {
        SkipBuffer(n);
      }
    }

    /** Bytes are taken from the hook one by one. */
    method SkipHook(n: nat)
      requires inp.buf.None? && !inp.end
      modifies `inp, `insn
      ensures inp.end == (n > |old(inp).hook|)
      ensures inp.hook == if n <= |old(inp).hook| then old(inp).hook[n..] else []
      ensures inp.buf == old(inp).buf && inp.sess == old(inp).sess
    {
      var left := n;
      while left > 0
        invariant 0 <= left <= n && inp.buf.None? && !inp.end && inp.sess == old(inp).sess
        invariant n - left <= |old(inp).hook| && inp.hook == old(inp).hook[n - left..]
      {
        if inp.hook == [] {
          inp := inp.(end := true);
          insn := insn.(err := true);
          return;
        }
        inp := inp.(hook := inp.hook[1..]);
        left := left - 1;
      }
    }

    method SkipBuffer(n: nat)
      requires inp.buf.Some? && !inp.end && inp.index <= |inp.buf.value|
      modifies `inp, `insn
      ensures inp.end == (n > |old(inp).buf.value| - old(inp).index)
      ensures inp.index == if inp.end then |old(inp).buf.value| else old(inp).index + n
      ensures inp.buf == old(inp).buf && inp.sess == old(inp).sess
    {
      var size := |inp.buf.value|;
      if n > size || inp.index > size - n {
        inp := inp.(index := size, end := true);
        insn := insn.(err := true);
        return;
      }
      inp := inp.(index := inp.index + n);
    }
  }

  lemma UintOne(rem: seq<byte>, c: Core)
    ensures Uint(rem, c, 1) == Next(rem, c)
  {
    assert Uint(rem, Next(rem, c).0, 0) == (Next(rem, c).0, 0);
  }

  /** A wide value is two narrower ones, the low half first. */
  lemma UintHalves(rem: seq<byte>, c: Core, n: nat)
    requires n == 2 || n == 4
    ensures var (c1, lo) := Uint(rem, c, n);
            var (c2, hi) := Uint(rem, c1, n);
            Uint(rem, c, 2 * n) == (c2, lo + Pow256(n) * hi)
    ensures Pow256(2) == 0x1_0000 && Pow256(4) == 0x1_0000_0000
  {
    UintAppend(rem, c, n, n);
    assert Pow256(2) == 256 * Pow256(1);
    assert Pow256(4) == 256 * Pow256(3) == 256 * (256 * Pow256(2));
  }

  lemma {:induction false} UintAppend(rem: seq<byte>, c: Core, n: nat, m: nat)
    ensures var (c1, lo) := Uint(rem, c, n);
            var (c2, hi) := Uint(rem, c1, m);
            Uint(rem, c, n + m) == (c2, lo + Pow256(n) * hi)
    decreases n
  {
    if n != 0 {
      var c1 := Next(rem, c).0;
      UintAppend(rem, c1, n - 1, m);
      MulAssoc(Pow256(n - 1), Uint(rem, Uint(rem, c1, n - 1).0, m).1);
      assert n + m - 1 == n - 1 + m;
    }
  }

  lemma MulAssoc(p: nat, v: nat)
    ensures 256 * (p * v) == (256 * p) * v
  {
  }
}
