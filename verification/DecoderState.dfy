/** The part of `struct ud` that one instruction's decoding reads and writes, and the
    reading of input bytes.

    `rem` is the input from the first byte of the instruction on.  Fields of the C structure
    that are dead at a point (a ModRM byte not yet read, operand modes not yet resolved) have
    no value here, so nothing below can depend on what an earlier instruction left in them. */
module DecoderState {
  import opened Bytes
  import opened Itab
  import opened OpcodeTables

  type DisMode = ModeBits

  datatype Config = Config(mode: DisMode, vendor: VendorTag)

  datatype Register =
    | NoReg
    | Gpr8(n: nat) | Gpr16(n: nat) | Gpr32(n: nat) | Gpr64(n: nat)
    | Seg(n: nat) | Cr(n: nat) | Dr(n: nat) | Mmx(n: nat) | St(n: nat) | Xmm(n: nat) | Rip

  datatype OperandType = NoOperand | RegOp | MemOp | PtrOp | ImmOp | JimmOp | ConstOp

  /** struct ud_operand.  `lval` is the unsigned reading of the value union; `ptrSeg` the
      segment half of a far pointer. */
  datatype Operand = Operand(
    ty: OperandType, size: nat, base: Register, index: Register, scale: nat, offset: nat,
    lval: nat, ptrSeg: nat, code: OpCode)

  const CLEARED := Operand(NoOperand, 0, NoReg, NoReg, 0, 0, 0, 0, OpNone)

  /** What clear_insn resets: error, prefixes, mnemonic, table row, far flag and operands. */
  datatype Instr = Instr(
    err: bool, seg: Register, opr: byte, adr: byte, lock: byte, repne: byte, rep: byte, repe: byte, rex: byte,
    str: byte, mnemonic: Mnemonic, entry: Option<Entry>, brFar: bool, op0: Operand, op1: Operand, op2: Operand)

  const NO_INSN :=
    Instr(false, NoReg, 0, 0, 0, 0, 0, 0, 0, 0, NoMnemonic, None, false, CLEARED, CLEARED, CLEARED)

  datatype Core = Core(
    ctr: nat, end: bool, curr: byte, modrm: Option<byte>, primary: Option<byte>, oprMode: nat, adrMode: nat,
    insn: Instr)

  /** inp_start and clear_insn. */
  const FRESH := Core(0, false, 0, None, None, 0, 0, NO_INSN)

  /** UDERR. */
  function Fail(c: Core): Core { c.(insn := c.insn.(err := true)) }

  /** Bytes read, with one more for a ModRM byte still to come. */
  function Potential(c: Core): nat {
    c.ctr + (if c.modrm.None? then 1 else 0)
  }

  /** From `c` to `d` at most `k` bytes beyond the ModRM byte are consumed, all of them in the
      input; a ModRM byte once read stays, and so do end of input and error. */
  predicate Advances(rem: seq<byte>, c: Core, d: Core, k: nat) {
    && c.ctr <= d.ctr && Potential(d) <= Potential(c) + k
    && (c.ctr <= |rem| ==> d.ctr <= |rem|)
    && (c.end ==> d.end && d.ctr == c.ctr) && (c.insn.err ==> d.insn.err) && (d.end && !c.end ==> d.insn.err)
    && (d.end && !c.end && c.ctr <= |rem| ==> d.ctr == |rem|)
    && (c.modrm.Some? ==> d.modrm == c.modrm)
    && (c.ctr > 0 ==> d.ctr > 0)
  }

  /** Prefixes, operands and modes, which reading bytes leaves alone. */
  predicate SamePrefixes(c: Core, d: Core) {
    && d.insn == c.insn.(err := d.insn.err)
    && d.oprMode == c.oprMode && d.adrMode == c.adrMode
  }

  /** The first `n` bytes of both inputs are there and the same. */
  predicate Agree(rem: seq<byte>, rem': seq<byte>, n: nat) {
    n <= |rem| && n <= |rem'| && rem[..n] == rem'[..n]
  }

  /** inp_next. */
  function Next(rem: seq<byte>, c: Core): (r: (Core, byte))
    ensures Advances(rem, c, r.0, 1) && SamePrefixes(c, r.0)
  {
    if !c.end && c.ctr < |rem|
    then (c.(ctr := c.ctr + 1, curr := rem[c.ctr]), rem[c.ctr])
    else (Fail(c).(end := true), 0)
  }

  lemma NextLocal(rem: seq<byte>, rem': seq<byte>, c: Core)
    requires !Next(rem, c).0.end && Agree(rem, rem', Next(rem, c).0.ctr)
    ensures Next(rem', c) == Next(rem, c)
  {
    assert rem[..c.ctr + 1][c.ctr] == rem'[..c.ctr + 1][c.ctr];
  }
  /** inp_uint8/16/32/64: `n` bytes, least significant first; a missing byte reads as 0. */
  function Uint(rem: seq<byte>, c: Core, n: nat): (r: (Core, nat))
    ensures Advances(rem, c, r.0, n) && SamePrefixes(c, r.0)
    ensures r.1 < Pow256(n)
    decreases n
  {
    if n == 0 then (c, 0)
    else
      var (c1, low) := Next(rem, c);
      var (c2, high) := Uint(rem, c1, n - 1);
      (c2, low + 256 * high)
  }

  lemma {:induction false} UintLocal(rem: seq<byte>, rem': seq<byte>, c: Core, n: nat)
    requires !Uint(rem, c, n).0.end && Agree(rem, rem', Uint(rem, c, n).0.ctr)
    ensures Uint(rem', c, n) == Uint(rem, c, n)
    decreases n
  {
    if n != 0 {
      AgreeLess(rem, rem', Uint(rem, c, n).0.ctr, Next(rem, c).0.ctr);
      NextLocal(rem, rem', c);
      UintLocal(rem, rem', Next(rem, c).0, n - 1);
    }
  }

  lemma AgreeLess(rem: seq<byte>, rem': seq<byte>, n: nat, m: nat)
    requires Agree(rem, rem', n) && m <= n
    ensures Agree(rem, rem', m)
  {
    assert rem[..m] == rem[..n][..m];
    assert rem'[..m] == rem'[..n][..m];
  }

  /** modrm: read once, then cached. */
  function Modrm(rem: seq<byte>, c: Core): (r: (Core, byte))
    ensures Advances(rem, c, r.0, 0) && SamePrefixes(c, r.0)
    ensures r.0.modrm == Some(r.1)
  {
    if c.modrm.Some? then (c, c.modrm.value)
    else
      var (c1, b) := Next(rem, c);
      (c1.(modrm := Some(b)), b)
  }

  lemma ModrmLocal(rem: seq<byte>, rem': seq<byte>, c: Core)
    requires !Modrm(rem, c).0.end && Agree(rem, rem', Modrm(rem, c).0.ctr)
    ensures Modrm(rem', c) == Modrm(rem, c)
  {
    if c.modrm.None? { NextLocal(rem, rem', c); }
  }

  // Fields of the ModRM byte, the SIB byte and the REX prefix.

  function ModOf(b: byte): (r: nat) ensures r <= 3 { b / 64 }
  function RegOf(b: byte): (r: nat) ensures r <= 7 { (b / 8) % 8 }
  function RmOf(b: byte): (r: nat) ensures r <= 7 { b % 8 }

  function RexW(rex: byte): (r: nat) ensures r <= 1 { (rex / 8) % 2 }
  function RexR(rex: byte): (r: nat) ensures r <= 1 { (rex / 4) % 2 }
  function RexX(rex: byte): (r: nat) ensures r <= 1 { (rex / 2) % 2 }
  function RexB(rex: byte): (r: nat) ensures r <= 1 { rex % 2 }
}
