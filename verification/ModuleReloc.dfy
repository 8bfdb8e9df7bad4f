/** The relocations of shiva_module.c: the lookups they make, what each one stores and where, and the stores of
    the two passes that follow. */
module ModuleReloc {
  import opened Bytes
  import opened Modular
  import opened Patching
  import opened ModuleLayout

  /** What relocation reads. `bias` is what a symbol of Shiva itself is offset by: 0 in standalone
      mode, the base address otherwise. */
  datatype Env = Env(elf: Elf, self: map<string, Symbol>, bias: nat, textVaddr: nat, dataVaddr: nat,
                     pltgotOff: nat, pltOff: nat, maps: seq<Mapping>, plts: seq<PltEntry>, gots: seq<GotEntry>)
  {
    function Got(): nat { dataVaddr + pltgotOff }
  }

  // ----- Lookups ---------------------------------------------------------------------------

  /** strrchr(s, '.'): from the last dot on. */
  function FromLastDot(s: string): Option<string> {
    if s == [] then None
    else
      match FromLastDot(s[1..])
      case Some(t) => Some(t)
      case None => if s[0] == '.' then Some(s) else None
  }

  lemma {:induction false} LastDotFound(s: string)
    ensures FromLastDot(s).Some? <==> '.' in s
    ensures FromLastDot(s).Some? ==>
              FromLastDot(s).value != [] && FromLastDot(s).value[0] == '.' && '.' !in FromLastDot(s).value[1..]
  {
    if s != [] {
      LastDotFound(s[1..]);
    }
  }

  lemma {:induction false} FromLastDotAppend(front: string, s: string)
    requires '.' in s
    ensures FromLastDot(front + s) == FromLastDot(s)
  {
    LastDotFound(s);
    if front == [] {
      assert front + s == s;
    } else {
      FromLastDotAppend(front[1..], s);
      assert (front + s)[1..] == front[1..] + s;
    }
  }

  /** A relocation section `.rela<name>` leads to the section called `name` exactly when that name
      starts with its only dot. */
  lemma RelaNames(name: string)
    ensures FromLastDot(".rela" + name) == Some(name) <==> OneDot(name)
  {
    if '.' in name {
      FromLastDotAppend(".rela", name);
      LastDotFound(name);
      LastDotFound(name[1..]);
    } else {
      LastDotFound(".rela" + name);
    }
  }

  /** A name that starts with its only dot. */
  predicate OneDot(name: string) { name != [] && name[0] == '.' && '.' !in name[1..] }

  /** The relocations of `.data.rel.ro` lead to a section called `.ro`. */
  lemma RelRoIsLost()
    ensures FromLastDot(".rela" + ".data.rel.ro") == Some(".ro")
    ensures FromLastDot(".rela" + ".data.rel.ro") != Some(".data.rel.ro")
  {
    var head, tail := ".rela.data.rel", ".ro";
    assert ".rela" + ".data.rel.ro" == head + tail;
    FromLastDotAppend(head, tail);
    assert tail[1..] == "ro" && "ro"[1..] == "o" && "o"[1..] == "";
    assert FromLastDot("o") == None && FromLastDot("ro") == None;
    assert |Some(".ro").value| != |".data.rel.ro"|;
  }

  /** get_section_mapping: the first mapping with the name. */
  function FindMap(maps: seq<Mapping>, name: string): (r: Option<Mapping>)
    ensures r.Some? ==> r.value in maps && r.value.name == name
  {
    if maps == [] then None
    else if maps[0].name == name then Some(maps[0])
    else FindMap(maps[1..], name)
  }

  // ----- One relocation ------------------------------------------------------------------------

  /** A value to be stored in `width` bytes. */
  datatype Field = Field(width: nat, value: int)

  function FieldBytes(f: Field): (r: seq<byte>)
    requires f.width == 4 || f.width == 8
    ensures |r| == f.width
  {
    if f.width == 4 then Bytes4(f.value % HALF) else Bytes8(f.value % WORD)
  }

  function SelfAddress(env: Env, name: string): Option<int> {
    if name in env.self then Some(env.self[name].value + env.bias) else None
  }

  /** The value of S in a PC32 relocation. */
  function Pc32Symbol(env: Env, name: string): Option<int> {
    if name != [] && name[0] == '.' then
      match FindMap(env.maps, name)
      case Some(m) => Some(m.vaddr)
      case None => None
    else if name in env.elf.symbols && env.elf.symbols[name].ty != SttNoType then
      Some(env.textVaddr + env.elf.symbols[name].value)
    else SelfAddress(env, name)
  }

  /** The switch of apply_relocation, for a field at address `place`. */
  function FieldValue(env: Env, r: Reloc, place: int): (f: Option<Field>)
    ensures f.Some? ==> f.value.width == 4 || f.value.width == 8
  {
    match r.ty
    case PltOff64 =>
      (match FindPlt(env.plts, r.symname)
       case Some(stub) => Some(Field(8, stub.vaddr - env.Got() + r.addend))
       case None => None)
    case GotPc64 => Some(Field(8, env.Got() - place + r.addend))
    case Got64 =>
      (match FindGot(env.gots, r.symname)
       case Some(slot) => Some(Field(8, slot.gotoff))
       case None => None)
    case GotOff64 =>
      if r.symname !in env.elf.symbols then None
      else
        var value := env.elf.symbols[r.symname].value;
        if ".LC" <= r.symname then
          match FindMap(env.maps, ".rodata")
          case Some(m) => Some(Field(8, value + m.vaddr + r.addend - env.Got()))
          case None => None
        else Some(Field(8, value + env.textVaddr + r.addend - env.Got()))
    case Plt32 =>
      (match FindPlt(env.plts, r.symname)
       case Some(stub) => Some(Field(4, stub.vaddr + r.addend - place))
       case None => None)
    case Pc32 =>
      (match Pc32Symbol(env, r.symname)
       case Some(s) => Some(Field(4, s + r.addend - place))
       case None => None)
    case OtherRel => None
  }

  /** The mapping a relocation's section name leads to. */
  function SectionOf(env: Env, r: Reloc): Option<Mapping> {
    match FromLastDot(r.shdrname)
    case Some(name) => FindMap(env.maps, name)
    case None => None
  }

  /** apply_relocation. */
  function ApplyStep(env: Env, r: Reloc): Step {
    match SectionOf(env, r)
    case Some(m) => StoreStep(m.offset + r.offset, FieldValue(env, r, env.textVaddr + m.offset + r.offset))
    case None => Fails
  }

  function StoreStep(off: nat, f: Option<Field>): Step
    requires f.Some? ==> f.value.width == 4 || f.value.width == 8
  {
    match f
    case Some(field) => Writes(Patch(off, FieldBytes(field)))
    case None => Fails
  }

  /** Relocations of .eh_frame are passed over. */
  predicate Applied(r: Reloc) { FromLastDot(r.shdrname) != Some(".eh_frame") }

  /** The body of relocate_module's loop. */
  function RelocStep(env: Env, r: Reloc): Step {
    if Applied(r) then ApplyStep(env, r) else Skip
  }

  // ----- The three passes -------------------------------------------------------------------------

  /** relocate_module. */
  function RelocSteps(env: Env, relocs: seq<Reloc>): (r: seq<Step>) {
    seq(|relocs|, i requires 0 <= i < |relocs| => RelocStep(env, relocs[i]))
  }

  /** The displacement of stub k: its GOT slot, from the end of the stub. */
  function StubDisplacement(env: Env, k: nat): int
    requires k < |env.plts|
  {
    match FindGot(env.gots, env.plts[k].symname)
    case Some(slot) => env.Got() + slot.gotoff - (env.textVaddr + env.pltOff + STUB_SIZE * k) - STUB_SIZE
    case None => 0
  }

  /** The body of patch_plt_stubs' loop. */
  function StubStep(env: Env, k: nat): Step
    requires k < |env.plts|
  {
    if FindGot(env.gots, env.plts[k].symname).None? then Fails
    else Writes(Patch(env.pltOff + STUB_SIZE * k + 2, Bytes4(StubDisplacement(env, k) % HALF)))
  }

  /** patch_plt_stubs. */
  function StubSteps(env: Env): (r: seq<Step>) {
    seq(|env.plts|, k requires 0 <= k < |env.plts| => StubStep(env, k))
  }

  /** A symbol that resolve_pltgot_entries takes from the module. */
  predicate Local(env: Env, name: string) {
    name in env.elf.symbols && (env.elf.symbols[name].ty == SttFunc || env.elf.symbols[name].ty == SttObject)
  }

  /** The body of resolve_pltgot_entries' loop. For a local symbol the offset is added to a pointer to
      8-byte words. */
  function GotStep(env: Env, slot: GotEntry): Step {
    if Local(env, slot.symname) then
      Writes(Patch(8 * (env.pltgotOff + slot.gotoff),
        Bytes8((env.elf.symbols[slot.symname].value + env.textVaddr) % WORD)))
    else
      match SelfAddress(env, slot.symname)
      case Some(a) => Writes(Patch(env.pltgotOff + slot.gotoff, Bytes8(a % WORD)))
      case None => Fails
  }

  /** resolve_pltgot_entries. */
  function GotSteps(env: Env): (r: seq<Step>) {
    seq(|env.gots|, k requires 0 <= k < |env.gots| => GotStep(env, env.gots[k]))
  }

  // ----- The environment the linker builds -------------------------------------------------------------

  function DataSize(elf: Elf): Option<nat> {
    match FindSection(elf.sections, ".bss")
    case Some(bss) => Some(GotOffset(elf) + bss.size + 8 * |GotList(elf.relocs)|)
    case None => None
  }

  function DataMaps(elf: Elf, dataVaddr: nat): seq<Mapping> {
    if DataSize(elf) == Some(0) then [] else Maps(elf.sections, MappedData, dataVaddr, false)
  }

  function EnvOf(elf: Elf, self: map<string, Symbol>, bias: nat, textVaddr: nat, dataVaddr: nat): Env {
    var pltOff := SumSizes(elf.sections, Mapped);
    Env(elf, self, bias, textVaddr, dataVaddr, GotOffset(elf), pltOff,
        Maps(elf.sections, Mapped, textVaddr, true) + DataMaps(elf, dataVaddr),
        PltList(elf.relocs, textVaddr, pltOff), GotList(elf.relocs))
  }
}
