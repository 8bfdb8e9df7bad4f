/** What the relocations of shiva_module.c are to mean, from section 4.4.1 of the System V AMD64 psABI,
    and when the linker's own lookups agree with it. */
module ModulePsabi {
  import opened Bytes
  import opened Modular
  import opened Patching
  import opened ModuleLayout
  import opened ModuleReloc

  // ----- Where sections and symbols are ---------------------------------------------------

  /** The address of section k in the loaded module, if it has one. */
  function SectionAddress(env: Env, k: nat): (r: Option<int>) {
    if k >= |env.elf.sections| then None
    else if Mapped(env.elf.sections[k]) then Some(env.textVaddr + SumUpTo(env.elf.sections, Mapped, k))
    else if InData(env.elf, k) then Some(env.dataVaddr + SumUpTo(env.elf.sections, MappedData, k))
    else None
  }

  predicate InData(elf: Elf, k: nat) {
    k < |elf.sections| && MappedData(elf.sections[k]) && DataSize(elf) != Some(0)
  }

  predicate InTextImage(elf: Elf, k: nat) {
    k < |elf.sections| && Mapped(elf.sections[k])
  }

  /** Sections of the object have an address in the loaded module: read-only ones that are allocated and not empty,
      except `.eh_frame` and notes, and writable ones that are not empty, unless there is nothing to go into the
      data segment. */
  lemma SectionsLoaded(env: Env, k: nat)
    requires k < |env.elf.sections|
    ensures var s := env.elf.sections[k];
            SectionAddress(env, k).Some? <==>
              s.size != 0 &&
              if s.write then DataSize(env.elf) != Some(0)
              else s.alloc && s.name != ".eh_frame" && forall i :: 0 <= i <= |s.name| ==> !(".note" <= s.name[i..])
  {
  }

  /** The data size counts the allocated writable sections without other flags, the .bss once more, and 8 bytes a
      slot. */
  lemma {:induction false} SizesCounted(sections: seq<Section>, n: nat)
    requires 0 < n <= |sections|
    ensures var s := sections[n - 1];
            && SumUpTo(sections, PlainData, n) == SumUpTo(sections, PlainData, n - 1) +
                                                  (if s.alloc && s.write && !s.other then s.size else 0)
            && SumUpTo(sections, InText, n) == SumUpTo(sections, InText, n - 1) +
                                               (if s.alloc && !s.write then s.size else 0)
  {
  }

  function InSectionAt(base: Option<int>, value: int): Option<int> {
    match base
    case Some(a) => Some(a + value)
    case None => None
  }

  /** S: the address of what a relocation refers to. */
  function SymbolAddress(env: Env, r: Reloc): Option<int> {
    if r.against.Some? then SectionAddress(env, r.against.value) else NamedAddress(env, r.symname)
  }

  /** The address of a symbol: an undefined one is Shiva's. */
  function NamedAddress(env: Env, name: string): Option<int> {
    if name !in env.elf.symbols then SelfAddress(env, name)
    else
      match env.elf.symbols[name].home
      case Undefined => SelfAddress(env, name)
      case Absolute => Some(env.elf.symbols[name].value)
      case InSection(k) => InSectionAt(SectionAddress(env, k), env.elf.symbols[name].value)
  }

  /** P: the address of the field that a relocation is for. */
  function Place(env: Env, r: Reloc): Option<int> {
    InSectionAt(SectionAddress(env, r.target), r.offset)
  }

  // ----- What the field stands for ------------------------------------------------------------

  /** What the field's value is relative to when the code uses it: the place itself or the GOT. */
  function Anchor(env: Env, r: Reloc, place: int): int {
    if r.ty == GotPc64 || r.ty == Plt32 || r.ty == Pc32 then place else env.Got()
  }

  /** The address a relocation stands for: L + A, GOT + A, G + A or S + A. */
  function Psabi(env: Env, r: Reloc): Option<int> {
    match r.ty
    case PltOff64 => Stub(env, r)
    case Plt32 => Stub(env, r)
    case GotPc64 => Some(env.Got() + r.addend)
    case Got64 =>
      (match FindGot(env.gots, r.symname) case Some(slot) => Some(env.Got() + slot.gotoff + r.addend) case None => None)
    case GotOff64 => InSectionAt(SymbolAddress(env, r), r.addend)
    case Pc32 => InSectionAt(SymbolAddress(env, r), r.addend)
    case OtherRel => None
  }

  /** L + A. */
  function Stub(env: Env, r: Reloc): Option<int> {
    match FindPlt(env.plts, r.symname)
    case Some(stub) => Some(stub.vaddr + r.addend)
    case None => None
  }

  /** The value the linker takes for S in a GOTOFF64 relocation. */
  function GotOffSymbol(env: Env, name: string): Option<int> {
    if name !in env.elf.symbols then None
    else if !(".LC" <= name) then Some(env.textVaddr + env.elf.symbols[name].value)
    else
      match FindMap(env.maps, ".rodata")
      case Some(m) => Some(m.vaddr + env.elf.symbols[name].value)
      case None => None
  }

  /** The address the linker takes a relocation to stand for. */
  function Aim(env: Env, r: Reloc): Option<int> {
    match r.ty
    case PltOff64 => Stub(env, r)
    case Plt32 => Stub(env, r)
    case GotPc64 => Some(env.Got() + r.addend)
    case Got64 =>
      (match FindGot(env.gots, r.symname) case Some(slot) => Some(env.Got() + slot.gotoff) case None => None)
    case GotOff64 => InSectionAt(GotOffSymbol(env, r.symname), r.addend)
    case Pc32 => InSectionAt(Pc32Symbol(env, r.symname), r.addend)
    case OtherRel => None
  }

  // ----- Sections by name -----------------------------------------------------------------------

  predicate Named(sections: seq<Section>, keep: Section -> bool, name: string, k: nat) {
    k < |sections| && keep(sections[k]) && sections[k].name == name
  }

  /** The first section of those kept with a name, among the first n. */
  function FirstNamed(sections: seq<Section>, keep: Section -> bool, name: string, n: nat): (r: Option<nat>)
    requires n <= |sections|
    ensures r.Some? ==> r.value < n && Named(sections, keep, name, r.value)
    ensures forall j: nat :: j < (if r.Some? then r.value else n) ==> !Named(sections, keep, name, j)
  {
    if n == 0 then None
    else
      match FirstNamed(sections, keep, name, n - 1)
      case Some(k) => Some(k)
      case None => if Named(sections, keep, name, n - 1) then Some(n - 1) else None
  }

  /** The section that a lookup by name ends at: text sections come first. */
  function Sought(elf: Elf, name: string): (r: Option<nat>)
    ensures r.Some? ==>
              (InTextImage(elf, r.value) || InData(elf, r.value)) && elf.sections[r.value].name == name
  {
    match FirstNamed(elf.sections, Mapped, name, |elf.sections|)
    case Some(k) => Some(k)
    case None => if DataSize(elf) == Some(0) then None else FirstNamed(elf.sections, MappedData, name, |elf.sections|)
  }

  /** The mapping of section k, made from the segment at `base`. */
  function MappingOf(sections: seq<Section>, keep: Section -> bool, base: nat, text: bool, k: nat): Mapping
    requires k < |sections|
  {
    Mapping(sections[k].name, base + SumUpTo(sections, keep, k), SumUpTo(sections, keep, k), sections[k].size, text)
  }

  lemma {:induction false} FindMapAppend(a: seq<Mapping>, b: seq<Mapping>, name: string)
    ensures FindMap(a + b, name) == if FindMap(a, name).Some? then FindMap(a, name) else FindMap(b, name)
  {
    if a == [] {
      assert a + b == b;
    } else {
      FindMapAppend(a[1..], b, name);
      assert (a + b)[1..] == a[1..] + b;
    }
  }

  lemma FindMapSnoc(a: seq<Mapping>, last: Mapping, name: string)
    ensures FindMap(a + [last], name) ==
            if FindMap(a, name).Some? then FindMap(a, name) else if last.name == name then Some(last) else None
  {
    FindMapAppend(a, [last], name);
  }

  /** A lookup among the mappings finds the mapping of the first section with the name. */
  lemma {:induction false} FindMapNamed(sections: seq<Section>, keep: Section -> bool, base: nat, text: bool, n: nat,
                                        name: string)
    requires n <= |sections|
    ensures FindMap(MapsUpTo(sections, keep, base, text, n), name) ==
            match FirstNamed(sections, keep, name, n)
            case Some(k) => Some(MappingOf(sections, keep, base, text, k))
            case None => None
  {
    if n > 0 {
      FindMapNamed(sections, keep, base, text, n - 1, name);
      if keep(sections[n - 1]) {
        FindMapSnoc(MapsUpTo(sections, keep, base, text, n - 1), MappingOf(sections, keep, base, text, n - 1), name);
      }
    }
  }

  /** The environment is the one the linker builds for its object. */
  ghost predicate Wired(env: Env) {
    env == EnvOf(env.elf, env.self, env.bias, env.textVaddr, env.dataVaddr)
  }

  /** get_section_mapping gives the address of the section sought. */
  lemma FindMapSought(env: Env, name: string)
    requires Wired(env)
    ensures FindMap(env.maps, name).Some? <==> Sought(env.elf, name).Some?
    ensures FindMap(env.maps, name).Some? ==>
              var k, m := Sought(env.elf, name).value, FindMap(env.maps, name).value;
              && SectionAddress(env, k) == Some(m.vaddr) && m.text == InTextImage(env.elf, k)
              && m.size == env.elf.sections[k].size && m.vaddr == (if m.text then env.textVaddr else env.dataVaddr) +
                m.offset
  {
    var sections := env.elf.sections;
    FindMapNamed(sections, Mapped, env.textVaddr, true, |sections|, name);
    FindMapNamed(sections, MappedData, env.dataVaddr, false, |sections|, name);
    FindMapAppend(Maps(sections, Mapped, env.textVaddr, true), DataMaps(env.elf, env.dataVaddr), name);
  }

  // ----- Different sections are at different addresses ---------------------------------------------

  /** The sections of the two segments do not run into each other. */
  predicate SegmentsApart(env: Env) {
    && env.textVaddr != env.dataVaddr
    && (|| env.textVaddr + SumSizes(env.elf.sections, Mapped) <= env.dataVaddr
        || env.dataVaddr + SumSizes(env.elf.sections, MappedData) <= env.textVaddr)
  }

  lemma SectionAddressUnique(env: Env, j: nat, k: nat)
    requires SegmentsApart(env) && SectionAddress(env, j).Some? && SectionAddress(env, k).Some?
    ensures SectionAddress(env, j) == SectionAddress(env, k) <==> j == k
  {
    if j < k {
      SectionAddressDiffers(env, j, k);
    } else if k < j {
      SectionAddressDiffers(env, k, j);
    }
  }

  lemma SectionAddressDiffers(env: Env, j: nat, k: nat)
    requires SegmentsApart(env) && SectionAddress(env, j).Some? && SectionAddress(env, k).Some? && j < k
    ensures SectionAddress(env, j) != SectionAddress(env, k)
  {
    var sections := env.elf.sections;
    SumPrefix(sections, Mapped, j + 1, k);
    SumPrefix(sections, MappedData, j + 1, k);
    SumPrefix(sections, Mapped, k + 1, |sections|);
    SumPrefix(sections, MappedData, k + 1, |sections|);
  }

  /** The text segment begins with section k. */
  predicate FirstText(elf: Elf, k: nat) {
    InTextImage(elf, k) && forall j :: 0 <= j < k ==> !Mapped(elf.sections[j])
  }

  lemma {:induction false} SumZero(sections: seq<Section>, n: nat)
    requires n <= |sections|
    ensures SumUpTo(sections, Mapped, n) == 0 <==> forall j :: 0 <= j < n ==> !Mapped(sections[j])
  {
    if n > 0 { SumZero(sections, n - 1); }
  }

  lemma TextBegins(env: Env, k: nat)
    requires SegmentsApart(env)
    ensures SectionAddress(env, k) == Some(env.textVaddr) <==> FirstText(env.elf, k)
  {
    var sections := env.elf.sections;
    if k < |sections| {
      SumZero(sections, k);
      SumPrefix(sections, MappedData, k + 1, |sections|);
    }
  }

  // ----- When the linker's S is the symbol's ---------------------------------------------------------

  /** What a relocation refers to is an entry of the module's symbol table, or a section by its name. */
  predicate WellFormed(elf: Elf, r: Reloc) {
    match r.against
    case Some(k) => k < |elf.sections| && r.symname == elf.sections[k].name && r.symname !in elf.symbols
    case None => r.symname in elf.symbols
  }

  /** A symbol of the module whose address is its value counted from the start of the text segment. */
  predicate CountsFromText(env: Env, name: string)
    requires name in env.elf.symbols
  {
    match env.elf.symbols[name].home
    case InSection(k) => FirstText(env.elf, k)
    case Absolute => env.textVaddr == 0
    case Undefined => SelfAddress(env, name) == Some(env.textVaddr + env.elf.symbols[name].value)
  }

  /** The same, for the start of `.rodata`. */
  predicate CountsFromRodata(env: Env, name: string)
    requires name in env.elf.symbols
  {
    match env.elf.symbols[name].home
    case InSection(k) => Sought(env.elf, ".rodata") == Some(k)
    case Absolute => FoundAddress(env, ".rodata") == Some(0)
    case Undefined => SelfAddress(env, name) == InSectionAt(FoundAddress(env, ".rodata"), env.elf.symbols[name].value)
  }

  function FoundAddress(env: Env, name: string): Option<int> {
    match Sought(env.elf, name)
    case Some(k) => SectionAddress(env, k)
    case None => None
  }

  /** What a name is looked up in Shiva for is there: so for every undefined symbol. */
  predicate InShiva(env: Env, r: Reloc) {
    || (r.against.None? && r.symname in env.elf.symbols && env.elf.symbols[r.symname].home.Undefined?)
    || SelfAddress(env, r.symname) == SymbolAddress(env, r)
  }

  /** The linker takes the right address, relocation type by type: a GOT64 relocation has to have no addend;
      a symbol of the module has to be in the section that begins the text segment, a `.LC` label in
      `.rodata`; a section has to be found by its name; and a symbol without a type has to be Shiva's. */
  predicate Homed(env: Env, r: Reloc)
    requires WellFormed(env.elf, r)
  {
    match r.ty
    case Got64 => r.addend == 0
    case GotOff64 =>
      r.symname in env.elf.symbols &&
      if ".LC" <= r.symname then CountsFromRodata(env, r.symname) else CountsFromText(env, r.symname)
    case Pc32 =>
      if r.symname != [] && r.symname[0] == '.' then
        if r.against.Some? then Sought(env.elf, r.symname) == r.against
        else FoundAddress(env, r.symname) == SymbolAddress(env, r)
      else if r.symname in env.elf.symbols && env.elf.symbols[r.symname].ty != SttNoType then
        CountsFromText(env, r.symname)
      else InShiva(env, r)
    case _ => true
  }

  /** The address the linker takes is the one the psABI asks for if and only if the relocation is homed. */
  lemma AimExact(env: Env, r: Reloc)
    requires Wired(env) && SegmentsApart(env) && WellFormed(env.elf, r) && Aim(env, r).Some?
    ensures Aim(env, r) == Psabi(env, r) <==> Homed(env, r)
  {
    match r.ty
    case GotOff64 => GotOffExact(env, r);
    case Pc32 => Pc32Exact(env, r);
    case _ =>
  }

  lemma TextSymbolExact(env: Env, name: string)
    requires SegmentsApart(env) && name in env.elf.symbols
    ensures NamedAddress(env, name) == Some(env.textVaddr + env.elf.symbols[name].value) <==> CountsFromText(env, name)
  {
    match env.elf.symbols[name].home
    case InSection(k) => TextBegins(env, k);
    case _ =>
  }

  /** An address found by name is that of section k if and only if section k is the one sought. */
  lemma FoundExact(env: Env, name: string, k: nat)
    requires Wired(env) && SegmentsApart(env) && FindMap(env.maps, name).Some?
    ensures Sought(env.elf, name).Some? && FoundAddress(env, name) == Some(FindMap(env.maps, name).value.vaddr)
    ensures SectionAddress(env, k) == FoundAddress(env, name) <==> Sought(env.elf, name) == Some(k)
  {
    FindMapSought(env, name);
    if SectionAddress(env, k).Some? {
      SectionAddressUnique(env, k, Sought(env.elf, name).value);
    }
  }

  lemma GotOffExact(env: Env, r: Reloc)
    requires Wired(env) && SegmentsApart(env) && WellFormed(env.elf, r) && r.ty == GotOff64 && Aim(env, r).Some?
    ensures Aim(env, r) == Psabi(env, r) <==> Homed(env, r)
  {
    if ".LC" <= r.symname {
      LabelExact(env, r);
    } else {
      TextSymbolExact(env, r.symname);
    }
  }

  lemma LabelExact(env: Env, r: Reloc)
    requires Wired(env) && SegmentsApart(env) && r.against.None? && r.symname in env.elf.symbols
    requires FindMap(env.maps, ".rodata").Some?
    ensures SymbolAddress(env, r) == Some(FindMap(env.maps, ".rodata").value.vaddr + env.elf.symbols[r.symname].value)
            <==> CountsFromRodata(env, r.symname)
  {
    var home := env.elf.symbols[r.symname].home;
    FoundExact(env, ".rodata", if home.InSection? then home.index else 0);
  }

  lemma Pc32Exact(env: Env, r: Reloc)
    requires Wired(env) && SegmentsApart(env) && WellFormed(env.elf, r) && r.ty == Pc32 && Aim(env, r).Some?
    ensures Aim(env, r) == Psabi(env, r) <==> Homed(env, r)
  {
    if r.symname != [] && r.symname[0] == '.' {
      FoundExact(env, r.symname, if r.against.Some? then r.against.value else 0);
    } else if r.symname in env.elf.symbols && env.elf.symbols[r.symname].ty != SttNoType {
      TextSymbolExact(env, r.symname);
    }
  }

  // ----- When the linker's P is the relocation's --------------------------------------------------------

  /** The name the linker takes a relocation's section to have is that of the section sought. */
  predicate Led(elf: Elf, r: Reloc) {
    && FromLastDot(r.shdrname).Some? && InTextImage(elf, r.target)
    && Sought(elf, FromLastDot(r.shdrname).value) == Some(r.target)
  }

  /** No two sections that are mapped have one name. */
  predicate NamesUnique(elf: Elf) {
    forall j, k :: 0 <= j < k < |elf.sections| && Kept(elf.sections[j]) && Kept(elf.sections[k]) ==>
      elf.sections[j].name != elf.sections[k].name
  }

  predicate Kept(s: Section) { Mapped(s) || MappedData(s) }

  /** With unique names, the relocations in `.rela<name>` are led to the section called `name` if and only if
      that section is in the text segment and its name starts with its only dot. */
  lemma LedExact(elf: Elf, r: Reloc)
    requires NamesUnique(elf) && r.target < |elf.sections| && r.shdrname == ".rela" + elf.sections[r.target].name
    ensures Led(elf, r) <==> InTextImage(elf, r.target) && OneDot(elf.sections[r.target].name)
  {
    RelaNames(elf.sections[r.target].name);
    if InTextImage(elf, r.target) {
      assert Named(elf.sections, Mapped, elf.sections[r.target].name, r.target);
    }
  }

  lemma LedPlace(env: Env, r: Reloc)
    requires Wired(env) && Led(env.elf, r)
    ensures SectionOf(env, r).Some? && SectionOf(env, r).value.text
    ensures SectionOf(env, r).value.vaddr == env.textVaddr + SectionOf(env, r).value.offset
    ensures Place(env, r) == Some(SectionOf(env, r).value.vaddr + r.offset)
  {
    FindMapSought(env, FromLastDot(r.shdrname).value);
  }

  /** A relocation is stored at its place if and only if its name leads to the section it is for and that
      section is in the text segment, or the offsets of two different sections happen to agree. The store always
      goes to the text image. */
  lemma PatchedPlace(env: Env, r: Reloc)
    requires Wired(env) && SegmentsApart(env) && RelocStep(env, r).Writes?
    ensures FromLastDot(r.shdrname).Some? && Sought(env.elf, FromLastDot(r.shdrname).value).Some?
    ensures Place(env, r) == Some(env.textVaddr + RelocStep(env, r).p.off) <==>
              Led(env.elf, r) || OffsetsAgree(env, r.target, Sought(env.elf, FromLastDot(r.shdrname).value).value)
  {
    StoredAt(env, r);
    var k := Sought(env.elf, FromLastDot(r.shdrname).value).value;
    if InTextImage(env.elf, k) && SectionAddress(env, r.target).Some? {
      SectionAddressUnique(env, k, r.target);
    }
  }

  lemma StoredAt(env: Env, r: Reloc)
    requires Wired(env) && RelocStep(env, r).Writes?
    ensures FromLastDot(r.shdrname).Some? && Sought(env.elf, FromLastDot(r.shdrname).value).Some?
    ensures var k := Sought(env.elf, FromLastDot(r.shdrname).value).value;
            Some(env.textVaddr + RelocStep(env, r).p.off - r.offset) ==
            if InTextImage(env.elf, k) then SectionAddress(env, k)
            else Some(env.textVaddr + SumUpTo(env.elf.sections, MappedData, k))
  {
    FindMapSought(env, FromLastDot(r.shdrname).value);
  }

  /** A store meant for section k of the data segment, made in the text image, hits section j. */
  predicate OffsetsAgree(env: Env, j: nat, k: nat) {
    InData(env.elf, k) && SectionAddress(env, j) == Some(env.textVaddr + SumUpTo(env.elf.sections, MappedData, k))
  }

  // ----- What is stored ------------------------------------------------------------------------------------

  /** A 32-bit field is exact when the distance fits. */
  lemma SignedHalf(x: int)
    requires -0x8000_0000 <= x < 0x8000_0000
    ensures Signed(x % HALF, 32) == x
  {
  }

  function WidthOf(ty: RelType): nat {
    if ty == Plt32 || ty == Pc32 then 4 else 8
  }

  /** A field's bytes, read back and added to the anchor, give the target: modulo the word size, and
      for 32-bit fields exactly when the target is within 2 GB of the anchor. */
  ghost predicate Gives(width: nat, anchor: int, bytes: seq<byte>, target: int) {
    && |bytes| == width
    && (width == 4 ==>
          && (anchor + Word4(bytes)) % HALF == target % HALF
          && (-0x8000_0000 <= target - anchor < 0x8000_0000 ==> anchor + Signed(Word4(bytes), 32) == target))
    && (width == 8 ==> (anchor + Word8(bytes)) % WORD == target % WORD)
  }

  lemma DistanceGives(width: nat, anchor: int, target: int)
    requires width == 4 || width == 8
    ensures Gives(width, anchor, FieldBytes(Field(width, target - anchor)), target)
  {
    var d := target - anchor;
    if width == 4 {
      Word4Bytes4(d % HALF);
      ModAdd(d, anchor, HALF);
      if -0x8000_0000 <= d < 0x8000_0000 { SignedHalf(d); }
    } else {
      Word8Bytes8(d % WORD);
      ModAdd(d, anchor, WORD);
    }
  }

  /** Close enough to the anchor for a field of that many bytes. */
  predicate InReach(width: nat, anchor: int, target: int) {
    var half := if width == 4 then HALF / 2 else WORD / 2;
    -half <= target - anchor < half
  }

  /** A field gives no more than one of the addresses in its reach. */
  lemma GivesOne(width: nat, anchor: int, bytes: seq<byte>, t: int, u: int)
    requires width == 4 || width == 8
    requires Gives(width, anchor, bytes, t) && Gives(width, anchor, bytes, u)
    requires InReach(width, anchor, t) && InReach(width, anchor, u)
    ensures t == u
  {
    var m := if width == 4 then HALF else WORD;
    SmallMultiple(m, t / m - u / m);
  }

  /** A relocation can be applied exactly when its section is mapped and the linker finds its target; the
      bytes stored then give that target. */
  lemma StepAims(env: Env, r: Reloc)
    requires Applied(r)
    ensures RelocStep(env, r).Writes? <==> SectionOf(env, r).Some? && Aim(env, r).Some?
    ensures RelocStep(env, r).Writes? ==>
              && RelocStep(env, r).p.off == SectionOf(env, r).value.offset + r.offset
              && |RelocStep(env, r).p.bytes| == (if r.ty == Plt32 || r.ty == Pc32 then 4 else 8)
              && Gives(WidthOf(r.ty), Anchor(env, r, env.textVaddr + RelocStep(env, r).p.off),
                       RelocStep(env, r).p.bytes, Aim(env, r).value)
  {
    if SectionOf(env, r).Some? && Aim(env, r).Some? {
      var place := env.textVaddr + SectionOf(env, r).value.offset + r.offset;
      assert FieldValue(env, r, place) == Some(Field(WidthOf(r.ty), Aim(env, r).value - Anchor(env, r, place)));
      DistanceGives(WidthOf(r.ty), Anchor(env, r, place), Aim(env, r).value);
    }
  }

  /** A relocation whose name leads to its own section is stored at its place, and what it stores gives the
      psABI's address if and only if the relocation is homed, as far as the addresses are in its reach. */
  lemma StepDenotes(env: Env, r: Reloc)
    requires Wired(env) && SegmentsApart(env) && WellFormed(env.elf, r)
    requires Applied(r) && RelocStep(env, r).Writes? && Led(env.elf, r)
    ensures Place(env, r) == Some(env.textVaddr + RelocStep(env, r).p.off)
    ensures Homed(env, r) ==> Denotes(env, r, RelocStep(env, r).p.bytes, Psabi(env, r))
    ensures AddressesInReach(env, r) && !Homed(env, r) ==> !Denotes(env, r, RelocStep(env, r).p.bytes, Psabi(env, r))
  {
    StepDenotesAim(env, r);
    AimExact(env, r);
    if AddressesInReach(env, r) {
      DenotesOne(env, r, RelocStep(env, r).p.bytes);
    }
  }

  lemma StepDenotesAim(env: Env, r: Reloc)
    requires Wired(env) && Applied(r) && RelocStep(env, r).Writes? && Led(env.elf, r)
    ensures Place(env, r) == Some(env.textVaddr + RelocStep(env, r).p.off)
    ensures Denotes(env, r, RelocStep(env, r).p.bytes, Aim(env, r))
  {
    StepAims(env, r);
    LedPlace(env, r);
  }

  /** A field at the relocation's place gives the target to the code around it. */
  ghost predicate Denotes(env: Env, r: Reloc, bytes: seq<byte>, target: Option<int>) {
    Place(env, r).Some? && target.Some? &&
    Gives(WidthOf(r.ty), Anchor(env, r, Place(env, r).value), bytes, target.value)
  }

  ghost predicate AddressesInReach(env: Env, r: Reloc) {
    Place(env, r).Some? && Aim(env, r).Some? && Psabi(env, r).Some? ==>
      var anchor := Anchor(env, r, Place(env, r).value);
      InReach(WidthOf(r.ty), anchor, Aim(env, r).value) && InReach(WidthOf(r.ty), anchor, Psabi(env, r).value)
  }

  lemma DenotesOne(env: Env, r: Reloc, bytes: seq<byte>)
    requires Denotes(env, r, bytes, Aim(env, r)) && AddressesInReach(env, r)
    ensures Denotes(env, r, bytes, Psabi(env, r)) ==> Aim(env, r) == Psabi(env, r)
  {
    if Denotes(env, r, bytes, Psabi(env, r)) {
      GivesOne(WidthOf(r.ty), Anchor(env, r, Place(env, r).value), bytes, Aim(env, r).value, Psabi(env, r).value);
    }
  }
}
