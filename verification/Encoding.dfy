/** What the bytes of an x86 instruction say, from their positions and bits alone: prefixes, ModRM, SIB,
    displacement and immediates, as in chapter 2 of volume 2 of the Intel 64 and IA-32 manual, and what the
    opcode extensions of a definition ask of them (ud_opcode.py, decode.c). */
module Encoding {
  import opened Bytes
  import opened Modular
  import opened Patching
  import opened Itab
  import opened OpcodeTables
  import opened DecoderState

  // ----- Prefixes ----------------------------------------------------------------------------

  predicate IsPrefix(b: byte, mode: ModeBits) {
    b in {0x26, 0x2E, 0x36, 0x3E, 0x64, 0x65, 0x66, 0x67, 0xF0, 0xF2, 0xF3} || (mode == 64 && 0x40 <= b < 0x50)
  }

  /** Where the prefixes from position i on end. */
  function PrefixEnd(rem: seq<byte>, mode: ModeBits, i: nat): (n: nat)
    requires i <= |rem|
    ensures i <= n <= |rem| && (n < |rem| ==> !IsPrefix(rem[n], mode))
    ensures forall j :: i <= j < n ==> IsPrefix(rem[j], mode)
    decreases |rem| - i
  {
    if i < |rem| && IsPrefix(rem[i], mode) then PrefixEnd(rem, mode, i + 1) else i
  }

  function PrefixCount(rem: seq<byte>, mode: ModeBits): (n: nat)
    ensures n <= |rem|
  {
    PrefixEnd(rem, mode, 0)
  }

  /** The last of some bytes that is among the given ones, or 0. */
  function LastAmong(s: seq<byte>, among: set<byte>): byte {
    if s == [] then 0
    else if s[|s| - 1] in among then s[|s| - 1]
    else LastAmong(s[..|s| - 1], among)
  }

  /** What prefixes say: the segment and string prefixes that count are the last ones, a REX prefix has to be
      the last of all. */
  datatype Given = Given(seg: byte, str: byte, opr: bool, adr: bool, lock: bool, rex: byte)

  function Said(s: seq<byte>, mode: ModeBits): Given {
    Given(LastAmong(s, {0x26, 0x2E, 0x36, 0x3E, 0x64, 0x65}), LastAmong(s, {0xF2, 0xF3}), 0x66 in s, 0x67 in s,
          0xF0 in s, if mode == 64 && s != [] && 0x40 <= s[|s| - 1] < 0x50 then s[|s| - 1] else 0)
  }

  /** The segment register that a prefix names. */
  function SegmentOf(b: byte): Register {
    match b
    case 0x26 => Seg(0)
    case 0x2E => Seg(1)
    case 0x36 => Seg(2)
    case 0x3E => Seg(3)
    case 0x64 => Seg(4)
    case 0x65 => Seg(5)
    case _ => NoReg
  }

  predicate BitW(rex: byte) { rex / 8 % 2 == 1 }
  predicate BitR(rex: byte) { rex / 4 % 2 == 1 }
  predicate BitX(rex: byte) { rex / 2 % 2 == 1 }
  predicate BitB(rex: byte) { rex % 2 == 1 }

  // ----- Effective sizes -----------------------------------------------------------------------

  /** The operand size, where an instruction has no default of 64 bits. */
  function OperandSize(mode: ModeBits, w: bool, opr: bool): ModeBits {
    match mode
    case 64 => if w then 64 else if opr then 16 else 32
    case 32 => if opr then 16 else 32
    case _ => if opr then 32 else 16
  }

  function AddressSize(mode: ModeBits, adr: bool): ModeBits {
    match mode
    case 64 => if adr then 32 else 64
    case 32 => if adr then 16 else 32
    case _ => if adr then 32 else 16
  }

  // ----- What extensions ask ---------------------------------------------------------------------

  /** The byte at a position; a missing one reads as 0, and decoding then fails. */
  function ByteOrZero(rem: seq<byte>, at: nat): byte { if at < |rem| then rem[at] else 0 }

  /** The alternative that the prefixes not used up yet choose: a string prefix comes before 66. */
  function Candidate(g: Given): Option<SsePrefix> {
    if g.str == 0xF2 then Some(SseF2)
    else if g.str == 0xF3 then Some(SseF3)
    else if g.opr then Some(Sse66)
    else None
  }

  /** An extension asks this of the input; `offered` says that the candidate is an alternative here. */
  predicate Asked(e: Ext, g: Given, modrm: byte, mode: ModeBits, offered: bool) {
    match e
    case ModExt(is11) => is11 <==> modrm >= 0xC0
    case X87Ext(n) => modrm == 0xC0 + n
    case RegExt(n) => modrm / 8 % 8 == n
    case RmExt(n) => modrm % 8 == n
    case SseExt(SseF2) => g.str == 0xF2
    case SseExt(SseF3) => g.str == 0xF3
    case SseExt(Sse66) => g.str == 0 && g.opr
    case SseExt(SseNone) => (g.str == 0 && !g.opr) || !offered
    case OExt(bits) => bits == OperandSize(mode, BitW(g.rex), g.opr)
    case AExt(bits) => bits == AddressSize(mode, g.adr)
    case MExt(is64) => is64 <==> mode == 64
    case ThreeDNowExt(_) => true
  }

  /** An alternative that is taken uses its prefix up. */
  function Used(e: Ext, g: Given): Given {
    match e
    case SseExt(SseF2) => g.(str := 0)
    case SseExt(SseF3) => g.(str := 0)
    case SseExt(Sse66) => g.(opr := false)
    case _ => g
  }

  /** The definition goes on with `opc` where the other one has gone n steps. */
  predicate GoesOn(def: Form, other: Form, n: nat, opc: Opc) {
    && n < |def.opcodes| && n <= |other.opcodes|
    && def.opcodes[..n] == other.opcodes[..n] && def.opcodes[n] == opc
  }

  predicate Offered(forms: seq<Form>, k: nat, n: nat, g: Given)
    requires k < |forms|
  {
    Candidate(g).Some? &&
    exists j :: 0 <= j < |forms| && GoesOn(forms[j], forms[k], n, Extension(SseExt(Candidate(g).value)))
  }

  /** The extensions of definition k from step n on, and its vendor, are what the input asks for. */
  predicate ExtensionsAsked(forms: seq<Form>, k: nat, g: Given, modrm: byte, cfg: Config, n: nat)
    requires k < |forms| && n <= |forms[k].opcodes|
    decreases |forms[k].opcodes| - n
  {
    var os := forms[k].opcodes;
    if n == |os| then VendorAsked(forms, k, cfg.vendor)
    else
      && os[n].Extension?
      && (os[n].ext.ThreeDNowExt? ||
          (Asked(os[n].ext, g, modrm, cfg.mode, Offered(forms, k, n, g)) &&
           ExtensionsAsked(forms, k, Used(os[n].ext, g), modrm, cfg, n + 1)))
  }

  /** A decoder for any vendor takes the form of Intel only where there is none of AMD. */
  predicate VendorAsked(forms: seq<Form>, k: nat, vendor: VendorTag)
    requires k < |forms|
  {
    match forms[k].vendor
    case None => true
    case Some(Amd) => vendor != Intel
    case Some(Intel) => vendor == Intel || (vendor == AnyVendor && !SameForAmd(forms, k))
    case Some(AnyVendor) => false
  }

  predicate SameForAmd(forms: seq<Form>, k: nat)
    requires k < |forms|
  {
    exists j :: 0 <= j < |forms| && forms[j].opcodes == forms[k].opcodes && forms[j].vendor == Some(Amd)
  }

  /** The prefixes left to the instruction after the extensions from step n on. */
  function LeftOver(os: seq<Opc>, n: nat, g: Given): Given
    requires n <= |os|
    decreases |os| - n
  {
    if n == |os| || !os[n].Extension? || os[n].ext.ThreeDNowExt? then g
    else LeftOver(os, n + 1, Used(os[n].ext, g))
  }

  /** The prefixes that an instance of a definition has left. */
  function Remaining(def: Form, rem: seq<byte>, mode: ModeBits): Given
    requires def.plains <= |def.opcodes|
  {
    LeftOver(def.opcodes, def.plains, Said(rem[..PrefixCount(rem, mode)], mode))
  }

  /** Some extension from step n on looks at the ModRM byte. */
  predicate ReadsModrm(os: seq<Opc>, n: nat)
    requires n <= |os|
    decreases |os| - n
  {
    n < |os| && (os[n].Plain? || !os[n].ext.ThreeDNowExt?) &&
    ((os[n].Extension? && (os[n].ext.ModExt? || os[n].ext.RegExt? || os[n].ext.RmExt? || os[n].ext.X87Ext?)) ||
     ReadsModrm(os, n + 1))
  }

  /** Where the bytes behind a definition's opcodes start. */
  function Behind(def: Form, rem: seq<byte>, mode: ModeBits): nat {
    PrefixCount(rem, mode) + def.plains
  }

  /** Opcodes i to b - 1 are the bytes that follow n prefixes. */
  predicate OpcodesThere(os: seq<Opc>, rem: seq<byte>, n: nat, i: nat, b: nat)
    requires b <= |os|
  {
    n + b <= |rem| && forall j :: i <= j < b ==> os[j] == Plain(rem[n + j])
  }

  /** The input is an instance of definition k: at most 13 prefixes, its opcode bytes, and what its extensions
      ask for. */
  predicate Matches(forms: seq<Form>, k: nat, rem: seq<byte>, cfg: Config)
    requires k < |forms|
  {
    var n := PrefixCount(rem, cfg.mode);
    Instance(forms, k, rem, cfg, n, Said(rem[..n], cfg.mode))
  }

  /** The same behind n prefixes that say `g`. */
  predicate Instance(forms: seq<Form>, k: nat, rem: seq<byte>, cfg: Config, n: nat, g: Given)
    requires k < |forms|
  {
    var os, b := forms[k].opcodes, forms[k].plains;
    && n <= 13 && 0 < b <= |os| && OpcodesThere(os, rem, n, 0, b)
    && ExtensionsAsked(forms, k, g, ByteOrZero(rem, n + b), cfg, b)
  }
}
