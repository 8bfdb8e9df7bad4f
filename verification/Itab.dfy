/** One row of the instruction table: mnemonic, three operand descriptions and
    the prefix bits that decode.h packs into a word. */
module Itab {

  /** Only the mnemonics that the decoder itself compares against are named. */
  datatype Mnemonic =
    | Invalid | NoMnemonic | Swapgs | Xchg | Nop | Pause | Call
    | Other(code: nat)

  /** Operand codes of decode.h.  Codes that decode_operand treats alike share a
      constructor: Fixed(0) is AL/AX/eAX/rAX, Fixed(1) is CL/CX/eCX, Fixed(2) is
      DL/DX/eDX; OpRn is R0..R7; SegReg follows the order ES, CS, SS, DS, FS, GS. */
  datatype OpCode =
    | OpNone | OpA | OpE | OpM | OpMR | OpF | OpG | OpI | OpSI | OpI1 | OpI3
    | OpN | OpQ | OpP | OpU | OpW | OpV | OpMU | OpS | OpO | OpJ | OpR | OpC | OpD
    | OpRn(reg: nat) | Fixed(num: nat) | SegReg(seg: nat) | OpST(st: nat)

  const SZ_NA: nat := 0
  const SZ_Z: nat := 1
  const SZ_V: nat := 2
  const SZ_RDQ: nat := 7
  const SZ_B: nat := 8
  const SZ_W: nat := 16
  const SZ_Y: nat := 17

  datatype OperandSpec = OperandSpec(code: OpCode, size: nat)

  datatype PrefixBits = PrefixBits(
    rexb: bool, inv64: bool, rexw: bool, def64: bool, rexr: bool, rexx: bool, seg: bool, str: bool)

  datatype Entry = Entry(
    mnemonic: Mnemonic,
    operand1: OperandSpec, operand2: OperandSpec, operand3: OperandSpec,
    prefix: PrefixBits)

  const NO_OPERAND := OperandSpec(OpNone, SZ_NA)
  const NO_PREFIX := PrefixBits(false, false, false, false, false, false, false, false)

  /** Row 0 of every generated table. */
  const INVALID_ENTRY := Entry(Invalid, NO_OPERAND, NO_OPERAND, NO_OPERAND, NO_PREFIX)
}
