/** Small objects that the linker loads, each of which shows an expected property to fail (shiva_module.c). */
module ModuleExamples {
  import opened Bytes
  import opened Pages
  import opened Modular
  import opened Patching
  import opened ModuleLayout
  import opened ModuleReloc
  import opened ModulePsabi
  import opened ModuleRun
  import opened ModuleLinker
  import opened ModuleLoading

  const TEXT: nat := 0x600_0000
  const DATA: nat := 0x600_1000

  /** An object of 16 bytes of text, one more section, and a .bss; every byte of the file is 1. */
  function Object(second: Section, bss: nat, relocs: seq<Reloc>, symbols: map<string, Symbol>): Elf {
    Elf(seq(16 + second.size + bss, _ => 1),
        [Section(".text", true, false, true, 0, 16), second,
         Section(".bss", true, true, false, 16 + second.size, bss)], relocs, symbols)
  }

  /** Linked with Shiva at a base, or standalone. */
  function LinkageAt(elf: Elf, self: map<string, Symbol>, bias: nat): Env { EnvOf(elf, self, bias, TEXT, DATA) }

  function Linkage(elf: Elf, self: map<string, Symbol>): Env { LinkageAt(elf, self, 0) }

  function DataSection(size: nat): Section { Section(".data", true, true, false, 16, size) }

  // ----- Layout -----------------------------------------------------------------------------

  lemma NoNote(name: string)
    requires forall i :: 0 <= i < |name| - 1 && name[i] == '.' ==> name[i + 1] != 'n'
    ensures !Contains(name, ".note")
  {
    forall i | 0 <= i <= |name|
      ensures !(".note" <= name[i..])
    {
      if |name[i..]| >= 2 {
        assert name[i..][0] == name[i] && name[i..][1] == name[i + 1];
      }
    }
  }

  lemma TextMapped(elf: Elf)
    requires |elf.sections| > 0 && elf.sections[0] == Section(".text", true, false, true, 0, 16)
    ensures Mapped(elf.sections[0])
  {
    NoNote(".text");
    assert |".text"| != |".eh_frame"|;
  }

  predicate IsSecond(second: Section) { second.alloc && second.offset == 16 && second.size > 0 }

  /** The sums over the three sections. */
  lemma ObjectSums(second: Section, bss: nat, relocs: seq<Reloc>, symbols: map<string, Symbol>)
    requires IsSecond(second) && second.write
    ensures var s := Object(second, bss, relocs, symbols).sections;
            && SumUpTo(s, Mapped, 0) == 0 && SumUpTo(s, Mapped, 1) == SumSizes(s, Mapped) == 16
            && SumUpTo(s, InText, 1) == SumSizes(s, InText) == 16
            && SumUpTo(s, MappedData, 1) == 0 && SumUpTo(s, MappedData, 2) == second.size
            && SumSizes(s, MappedData) == second.size + bss
            && SumSizes(s, PlainData) == (if second.other then 0 else second.size) + bss
  {
    var elf := Object(second, bss, relocs, symbols);
    var s := elf.sections;
    TextMapped(elf);
    assert SumUpTo(s, Mapped, 1) == 16 && SumUpTo(s, Mapped, 2) == 16;
    assert SumUpTo(s, InText, 1) == 16 && SumUpTo(s, InText, 2) == 16;
    assert SumUpTo(s, MappedData, 1) == 0 && SumUpTo(s, MappedData, 2) == second.size;
    assert SumUpTo(s, PlainData, 1) == 0 && SumUpTo(s, PlainData, 2) == if second.other then 0 else second.size;
  }

  lemma ObjectBss(second: Section, bss: nat, relocs: seq<Reloc>, symbols: map<string, Symbol>)
    requires second.name != ".bss"
    ensures var elf := Object(second, bss, relocs, symbols);
            DataSize(elf) == Some(GotOffset(elf) + bss + 8 * |GotList(relocs)|)
  {
    var s := Object(second, bss, relocs, symbols).sections;
    assert s[1..] == [s[1], s[2]] && s[1..][1..] == [s[2]];
    assert |".text"| != |".bss"|;
    assert FindSection(s, ".bss") == FindSection(s[1..], ".bss") == FindSection(s[1..][1..], ".bss") == Some(s[2]);
  }

  lemma ObjectReadable(second: Section, bss: nat, relocs: seq<Reloc>, symbols: map<string, Symbol>)
    requires IsSecond(second)
    ensures var elf := Object(second, bss, relocs, symbols);
            Readable(elf.file, elf.sections, Mapped) && Readable(elf.file, elf.sections, MappedData)
  {
  }

  /** Where names lead. */
  lemma ObjectSought(second: Section, bss: nat, relocs: seq<Reloc>, symbols: map<string, Symbol>)
    requires IsSecond(second) && second.write && second.name != ".text" && second.name != ".bss"
    ensures var elf := Object(second, bss, relocs, symbols);
            && Sought(elf, ".text") == Some(0)
            && (DataSize(elf) != Some(0) ==> Sought(elf, second.name) == Some(1))
  {
    var elf := Object(second, bss, relocs, symbols);
    TextMapped(elf);
    assert Named(elf.sections, Mapped, ".text", 0);
    assert Named(elf.sections, MappedData, second.name, 1);
  }

  // ----- Passes of one step -----------------------------------------------------------------------

  lemma OneStep(image: seq<byte>, steps: seq<Step>, p: Patch)
    requires steps == [Writes(p)] && Inside(p, |image|)
    ensures StepsInside(steps, |image|) && Succeeds(steps) && After(image, steps) == Put(image, p)
  {
    AfterSuccess(image, steps);
    assert Stored(image, steps, 0) == image;
  }

  lemma NoStep(image: seq<byte>)
    ensures After(image, []) == image
  {
  }

  /** The only relocation of an object, when its name leads to a section at offset `off` of its segment. */
  lemma OnlyStep(env: Env, r: Reloc, name: string, off: nat, f: Field)
    requires Wired(env) && FromLastDot(r.shdrname) == Some(name) && name != ".eh_frame"
    requires Sought(env.elf, name).Some?
    requires var k := Sought(env.elf, name).value;
             SectionAddress(env, k) == Some((if InTextImage(env.elf, k) then env.textVaddr else env.dataVaddr) + off)
    requires FieldValue(env, r, env.textVaddr + off + r.offset) == Some(f)
    ensures RelocSteps(env, [r]) == [Writes(Patch(off + r.offset, FieldBytes(f)))]
  {
    SoughtAt(env, name, off);
    StepStored(env, r, FindMap(env.maps, name).value, f);
  }

  lemma SoughtAt(env: Env, name: string, off: nat)
    requires Wired(env) && Sought(env.elf, name).Some?
    requires var k := Sought(env.elf, name).value;
             SectionAddress(env, k) == Some((if InTextImage(env.elf, k) then env.textVaddr else env.dataVaddr) + off)
    ensures FindMap(env.maps, name).Some? && FindMap(env.maps, name).value.offset == off
  {
    FindMapSought(env, name);
  }

  lemma StepStored(env: Env, r: Reloc, m: Mapping, f: Field)
    requires SectionOf(env, r) == Some(m) && Applied(r)
    requires FieldValue(env, r, env.textVaddr + m.offset + r.offset) == Some(f)
    ensures RelocSteps(env, [r]) == [Writes(Patch(m.offset + r.offset, FieldBytes(f)))]
  {
    assert RelocStep(env, r) == StoreStep(m.offset + r.offset, Some(f));
  }

  /** A relocation without a stub and a slot. */
  lemma NoEntries(r: Reloc, pltOff: nat)
    requires !NeedsPlt(r) && !NeedsGot(r)
    ensures GotList([r]) == [] && CountPlt([r]) == 0 && PltList([r], TEXT, pltOff) == []
  {
    assert GotUpTo([r], 0) == [] && PltUpTo([r], 0) == 0;
  }

  lemma LoadsNow(elf: Elf, env: Env)
    requires Built(elf, env) && DataFits(elf) && StoresInside(elf, env) && CanLoad(elf, env)
    ensures Loads(elf, env)
  {
    BuiltLayout(elf, env);
    StubsSucceed(env);
    StubStepsInside(elf, env);
  }

  /** A module with one relocation and one slot. */
  lemma OneSlotLoads(elf: Elf, env: Env, p: Patch, g: Patch)
    requires Built(elf, env) && DataFits(elf) && DataReadable(elf) && Readable(elf.file, elf.sections, Mapped)
    requires RelocSteps(env, elf.relocs) == [Writes(p)] && GotSteps(env) == [Writes(g)]
    requires Inside(p, TextSize(elf)) && Inside(g, DataLength(elf))
    ensures StoresInside(elf, env) && Loads(elf, env)
    ensures LoadedImage(elf, env).data == Put(DataImage(elf), g)
  {
    OneStep(TextImage(elf), [Writes(p)], p);
    OneStep(DataImage(elf), [Writes(g)], g);
    LoadsNow(elf, env);
  }

  /** A module with one relocation and no GOT. */
  lemma OneStepLoads(elf: Elf, env: Env, p: Patch)
    requires Built(elf, env) && DataFits(elf) && DataReadable(elf) && Readable(elf.file, elf.sections, Mapped)
    requires RelocSteps(env, elf.relocs) == [Writes(p)] && StubSteps(env) == [] && GotSteps(env) == []
    requires Inside(p, TextSize(elf))
    ensures StoresInside(elf, env) && Loads(elf, env)
    ensures LoadedImage(elf, env).text == Put(TextImage(elf), p) && LoadedImage(elf, env).data == DataImage(elf)
  {
    OneStep(TextImage(elf), [Writes(p)], p);
    NoStep(Put(TextImage(elf), p));
    NoStep(DataImage(elf));
  }

  // ----- The .bss -----------------------------------------------------------------------------------

  const BSS_ELF: Elf := Object(DataSection(8), 8, [], map[])
  const BSS_ENV: Env := Linkage(BSS_ELF, map[])

  lemma BssLoads()
    ensures WellPlaced(BSS_ELF, BSS_ENV) && CanLoad(BSS_ELF, BSS_ENV) && InData(BSS_ELF, 2)
    ensures SumUpTo(BSS_ELF.sections, MappedData, 2) == 8
  {
    ObjectSums(DataSection(8), 8, [], map[]);
    ObjectBss(DataSection(8), 8, [], map[]);
    ObjectReadable(DataSection(8), 8, [], map[]);
  }

  /** Eight bytes of data and eight of .bss, and nothing to relocate: the .bss does not read zero. */
  lemma BssReadsFile()
    ensures DataFits(BSS_ELF) && StoresInside(BSS_ELF, BSS_ENV) && Loads(BSS_ELF, BSS_ENV)
    ensures BSS_ELF.sections[2].name == ".bss" && SectionAddress(BSS_ENV, 2) == Some(DATA + 8)
    ensures |LoadedImage(BSS_ELF, BSS_ENV).data| > 8 && LoadedImage(BSS_ELF, BSS_ENV).data[8] != 0
  {
    BssLoads();
    WellPlacedLoads(BSS_ELF, BSS_ENV);
    BssReadsZero(BSS_ELF, BSS_ENV, 2, 0);
  }

  // ----- Relocations of data ----------------------------------------------------------------------------

  const DATA_RELOC: Reloc := Reloc(".rela" + ".data", 4, GotPc64, "", 0, 1, None)
  const DATA_ELF: Elf := Object(DataSection(16), 0, [DATA_RELOC], map[])
  const DATA_ENV: Env := Linkage(DATA_ELF, map[])

  lemma DataRelocStep()
    ensures DataSize(DATA_ELF) == Some(16) && Place(DATA_ENV, DATA_RELOC) == Some(DATA + 4)
    ensures RelocSteps(DATA_ENV, [DATA_RELOC]) == [Writes(Patch(4, Bytes8(0x100c)))]
    ensures StubSteps(DATA_ENV) == [] && GotSteps(DATA_ENV) == []
  {
    ObjectSums(DataSection(16), 0, [DATA_RELOC], map[]);
    ObjectBss(DataSection(16), 0, [DATA_RELOC], map[]);
    ObjectSought(DataSection(16), 0, [DATA_RELOC], map[]);
    NoEntries(DATA_RELOC, 16);
    RelaNames(".data");
    assert |".data"| != |".eh_frame"|;
    OnlyStep(DATA_ENV, DATA_RELOC, ".data", 0, Field(8, 0x100c));
  }

  /** A relocation of `.data`, at offset 4: it is stored at offset 4 of the text segment, and the data section
      is left as it is in the file. */
  lemma DataRelocMisplaced()
    ensures DataFits(DATA_ELF) && StoresInside(DATA_ELF, DATA_ENV) && Loads(DATA_ELF, DATA_ENV)
    ensures Place(DATA_ENV, DATA_RELOC) == Some(DATA + 4)
    ensures Holds(LoadedImage(DATA_ELF, DATA_ENV).text, Patch(4, Bytes8(0x100c)))
    ensures Holds(LoadedImage(DATA_ELF, DATA_ENV).data, SectionPatch(DATA_ELF.file, DATA_ELF.sections[1], 0))
  {
    DataRelocStep();
    ObjectSums(DataSection(16), 0, [DATA_RELOC], map[]);
    ObjectReadable(DataSection(16), 0, [DATA_RELOC], map[]);
    OneStepLoads(DATA_ELF, DATA_ENV, Patch(4, Bytes8(0x100c)));
    SectionsMapped(DATA_ELF.file, DATA_ELF.sections, MappedData, DataLength(DATA_ELF), 3, 1);
  }

  // ----- Calls through the GOT -------------------------------------------------------------------------------

  /** The text begins with the field of a call. */
  function Call(name: string): Reloc { Reloc(".rela" + ".text", 0, Plt32, name, -4, 0, None) }

  function Caller(second: Section, name: string, symbols: map<string, Symbol>): Elf {
    Object(second, 0, [Call(name)], symbols)
  }

  lemma CallerLists(name: string)
    ensures GotList([Call(name)]) == [GotEntry(name, 0)] && CountPlt([Call(name)]) == 1
    ensures PltList([Call(name)], TEXT, 16) == [PltEntry(name, TEXT + 16, 16)]
  {
    assert GotUpTo([Call(name)], 0) == [] && PltUpTo([Call(name)], 0) == 0;
    assert StubsUpTo([Call(name)], TEXT, 16, 0) == [];
  }

  /** The call is relocated and the module has one stub and one slot, behind the plain data. */
  lemma CallerSteps(second: Section, name: string, symbols: map<string, Symbol>, self: map<string, Symbol>,
                    bias: nat)
    requires IsSecond(second) && second.write && second.name != ".text" && second.name != ".bss"
    ensures var elf := Caller(second, name, symbols);
            var env := LinkageAt(elf, self, bias);
            && DataSize(elf) == Some(GotOffset(elf) + 8)
            && GotOffset(elf) == (if second.other then 0 else second.size) && TextSize(elf) == 22
            && RelocSteps(env, elf.relocs) == [Writes(Patch(0, Bytes4(12)))]
            && GotSteps(env) == [GotStep(env, GotEntry(name, 0))]
  {
    var elf := Caller(second, name, symbols);
    var env := LinkageAt(elf, self, bias);
    ObjectSums(second, 0, [Call(name)], symbols);
    ObjectBss(second, 0, [Call(name)], symbols);
    ObjectSought(second, 0, [Call(name)], symbols);
    CallerLists(name);
    TextMapped(elf);
    RelaNames(".text");
    assert |".text"| != |".eh_frame"|;
    OnlyStep(env, Call(name), ".text", 0, Field(4, 12));
  }

  const OWN_F: map<string, Symbol> := map["f" := Symbol(0, SttFunc, InSection(0))]

  const OWN_ELF: Elf := Caller(DataSection(8), "f", OWN_F)
  const OWN_ENV: Env := Linkage(OWN_ELF, map[])

  lemma OwnStep(size: nat)
    requires size > 0
    ensures var elf := Caller(DataSection(size), "f", OWN_F);
            var env := Linkage(elf, map[]);
            && DataSize(elf) == Some(size + 8) && GotOffset(elf) == size && DataFits(elf) && TextSize(elf) == 22
            && RelocSteps(env, elf.relocs) == [Writes(Patch(0, Bytes4(12)))]
            && GotSteps(env) == [Writes(Patch(8 * size, Bytes8(TEXT)))]
  {
    CallerSteps(DataSection(size), "f", OWN_F, map[], 0);
    ObjectSums(DataSection(size), 0, [Call("f")], OWN_F);
  }

  /** A function of the module itself, called after 8 bytes of data: its slot, at offset 8, is left zero, and its
      address is at offset 64. */
  lemma LocalSlotMissedAt()
    ensures DataFits(OWN_ELF) && StoresInside(OWN_ELF, OWN_ENV) && Loads(OWN_ELF, OWN_ENV)
    ensures OWN_ENV.gots == [GotEntry("f", 0)] && OWN_ENV.Got() == DATA + 8
    ensures Holds(LoadedImage(OWN_ELF, OWN_ENV).data, Patch(8, Zeros(8)))
    ensures Holds(LoadedImage(OWN_ELF, OWN_ENV).data, Patch(64, Bytes8(TEXT)))
  {
    OwnLoads();
    CallerLists("f");
    OwnData();
    HoldsKept(DataImage(OWN_ELF), Patch(8, Zeros(8)), Patch(64, Bytes8(TEXT)));
    PutHolds(DataImage(OWN_ELF), Patch(64, Bytes8(TEXT)));
  }

  lemma OwnLoads()
    ensures DataSize(OWN_ELF) == Some(16) && GotOffset(OWN_ELF) == 8 && DataFits(OWN_ELF) && DataReadable(OWN_ELF)
    ensures StoresInside(OWN_ELF, OWN_ENV) && Loads(OWN_ELF, OWN_ENV)
    ensures LoadedImage(OWN_ELF, OWN_ENV).data == Put(DataImage(OWN_ELF), Patch(64, Bytes8(TEXT)))
  {
    OwnStep(8);
    ObjectReadable(DataSection(8), 0, [Call("f")], OWN_F);
    OneSlotLoads(OWN_ELF, OWN_ENV, Patch(0, Bytes4(12)), Patch(64, Bytes8(TEXT)));
  }

  lemma OwnData()
    requires DataFits(OWN_ELF) && DataReadable(OWN_ELF) && DataSize(OWN_ELF) == Some(16)
    ensures Holds(DataImage(OWN_ELF), Patch(8, Zeros(8)))
  {
    ObjectSums(DataSection(8), 0, [Call("f")], OWN_F);
    BeyondSections(OWN_ELF, DataLength(OWN_ELF), 3, 8);
  }

  /** Behind its sections a data segment is zero. */
  lemma {:induction false} BeyondSections(elf: Elf, size: nat, n: nat, off: nat)
    requires n <= |elf.sections| && ReadableUpTo(elf.file, elf.sections, MappedData, n)
    requires SumUpTo(elf.sections, MappedData, n) <= off && off + 8 <= size
    ensures Holds(SegmentUpTo(elf.file, elf.sections, MappedData, size, n), Patch(off, Zeros(8)))
  {
    if n > 0 {
      BeyondSections(elf, size, n - 1, off);
      if MappedData(elf.sections[n - 1]) {
        HoldsKept(SegmentUpTo(elf.file, elf.sections, MappedData, size, n - 1), Patch(off, Zeros(8)),
                  SectionPatch(elf.file, elf.sections[n - 1], SumUpTo(elf.sections, MappedData, n - 1)));
      }
    }
  }

  const FAR_ELF: Elf := Caller(DataSection(8192), "f", OWN_F)
  const FAR_ENV: Env := Linkage(FAR_ELF, map[])

  /** The same after 8192 bytes of data: everything up to the last pass succeeds, and then the address is stored
      at offset 65536 of a data segment of 12288 bytes. */
  lemma LocalStoreOutside()
    ensures DataFits(FAR_ELF) && CanLoad(FAR_ELF, FAR_ENV)
    ensures StepsInside(RelocSteps(FAR_ENV, FAR_ELF.relocs), TextLength(FAR_ELF))
    ensures DataLength(FAR_ELF) == 12288 && GotSteps(FAR_ENV) == [Writes(Patch(65536, Bytes8(TEXT)))]
    ensures !StoresInside(FAR_ELF, FAR_ENV)
  {
    FarLoads();
    assert !Inside(GotSteps(FAR_ENV)[0].p, 12288);
  }

  lemma FarLoads()
    ensures DataFits(FAR_ELF) && CanLoad(FAR_ELF, FAR_ENV)
    ensures StepsInside(RelocSteps(FAR_ENV, FAR_ELF.relocs), TextLength(FAR_ELF))
    ensures DataLength(FAR_ELF) == 12288 && GotSteps(FAR_ENV) == [Writes(Patch(65536, Bytes8(TEXT)))]
  {
    OwnStep(8192);
    ObjectReadable(DataSection(8192), 0, [Call("f")], OWN_F);
  }

  const SHIVA_G: map<string, Symbol> := map["g" := Symbol(0x40_0000, SttFunc, Absolute)]
  const EXTERN_G: map<string, Symbol> := map["g" := Symbol(0, SttNoType, Undefined)]
  const TLS: Section := Section(".tdata", true, true, true, 16, 8)
  const TLS_ELF: Elf := Caller(TLS, "g", EXTERN_G)
  const TLS_ENV: Env := Linkage(TLS_ELF, SHIVA_G)

  lemma Overwritten(image: seq<byte>, p: Patch, q: Patch)
    requires Inside(p, |image|) && p.off == q.off && p.bytes != [] && q.bytes != [] && p.bytes[0] != q.bytes[0]
    ensures !Holds(Put(image, p), q)
  {
    if Holds(Put(image, p), q) {
      HeldByte(Put(image, p), q, q.off);
    }
  }

  lemma TlsSlot()
    ensures DataSize(TLS_ELF) == Some(8) && GotOffset(TLS_ELF) == 0 && TLS_ENV.Got() == DATA && DataFits(TLS_ELF)
    ensures TextSize(TLS_ELF) == 22 && RelocSteps(TLS_ENV, TLS_ELF.relocs) == [Writes(Patch(0, Bytes4(12)))]
    ensures GotSteps(TLS_ENV) == [Writes(Patch(0, Bytes8(0x40_0000)))]
  {
    CallerSteps(TLS, "g", EXTERN_G, SHIVA_G, 0);
    ObjectSums(TLS, 0, [Call("g")], EXTERN_G);
  }

  /** A thread-local data section is not counted in the data size: the GOT starts inside it, and the slot of a
      symbol of Shiva is stored over it. */
  lemma TlsDataOverlapsGot()
    ensures DataFits(TLS_ELF) && StoresInside(TLS_ELF, TLS_ENV) && Loads(TLS_ELF, TLS_ENV)
    ensures SectionAddress(TLS_ENV, 1) == Some(DATA) && TLS_ENV.Got() == DATA
    ensures Holds(DataImage(TLS_ELF), SectionPatch(TLS_ELF.file, TLS, 0))
    ensures !Holds(LoadedImage(TLS_ELF, TLS_ENV).data, SectionPatch(TLS_ELF.file, TLS, 0))
  {
    var g := Patch(0, Bytes8(0x40_0000));
    TlsSlot();
    TlsReadable();
    TlsImage();
    TlsBytes();
    OneSlotLoads(TLS_ELF, TLS_ENV, Patch(0, Bytes4(12)), g);
    Overwritten(DataImage(TLS_ELF), g, SectionPatch(TLS_ELF.file, TLS, 0));
  }

  lemma TlsBytes()
    ensures InFile(TLS_ELF.file, TLS) && SectionPatch(TLS_ELF.file, TLS, 0).bytes[0] != Bytes8(0x40_0000)[0]
  {
    LowByte(0x40_0000);
    assert |TLS_ELF.file| == 24 && TLS_ELF.file[16] == 1;
  }

  lemma LowByte(v: nat)
    ensures Bytes8(v)[0] == v % 256
  {
    LittleAt(v, 8, 0);
  }

  lemma TlsReadable()
    ensures Readable(TLS_ELF.file, TLS_ELF.sections, Mapped)
    ensures DataFits(TLS_ELF) && DataReadable(TLS_ELF) && SectionAddress(TLS_ENV, 1) == Some(DATA)
  {
    TlsSlot();
    ObjectSums(TLS, 0, [Call("g")], EXTERN_G);
    ObjectReadable(TLS, 0, [Call("g")], EXTERN_G);
  }

  lemma TlsImage()
    requires DataFits(TLS_ELF) && DataReadable(TLS_ELF) && DataSize(TLS_ELF) == Some(8) && InFile(TLS_ELF.file, TLS)
    ensures Holds(DataImage(TLS_ELF), SectionPatch(TLS_ELF.file, TLS, 0))
  {
    ObjectSums(TLS, 0, [Call("g")], EXTERN_G);
    SectionsMapped(TLS_ELF.file, TLS_ELF.sections, MappedData, DataLength(TLS_ELF), 3, 1);
  }

  const SHIVA_BASE: nat := 0x5555_5555_0000
  const PIE_G: map<string, Symbol> := map["g" := Symbol(0x1000, SttFunc, Absolute)]
  const PIE_ELF: Elf := Caller(DataSection(8), "g", EXTERN_G)
  const PIE_ENV: Env := LinkageAt(PIE_ELF, PIE_G, SHIVA_BASE)

  lemma PieSteps()
    ensures DataSize(PIE_ELF) == Some(16) && GotOffset(PIE_ELF) == 8 && TextSize(PIE_ELF) == 22
    ensures PIE_ENV.gots == [GotEntry("g", 0)] && PIE_ENV.plts == [PltEntry("g", TEXT + 16, 16)]
    ensures RelocSteps(PIE_ENV, PIE_ELF.relocs) == [Writes(Patch(0, Bytes4(12)))]
    ensures GotSteps(PIE_ENV) == [Writes(Patch(8, Bytes8(0x5555_5555_1000)))]
  {
    CallerLists("g");
    CallerSteps(DataSection(8), "g", EXTERN_G, PIE_G, SHIVA_BASE);
    ObjectSums(DataSection(8), 0, [Call("g")], EXTERN_G);
    assert GotStep(PIE_ENV, GotEntry("g", 0)) == Writes(Patch(8, Bytes8(0x5555_5555_1000)));
  }

  /** Shiva is not standalone and has its base at 0x5555_5555_0000: the slot of its function `g`, whose value is
      0x1000, holds the sum. */
  lemma ShivaBaseAdded()
    ensures PIE_ENV == ShivaEnv(PIE_ELF, PIE_G, false, SHIVA_BASE, TEXT, DATA)
    ensures DataFits(PIE_ELF) && StoresInside(PIE_ELF, PIE_ENV) && Loads(PIE_ELF, PIE_ENV)
    ensures Holds(LoadedImage(PIE_ELF, PIE_ENV).data, Patch(8, Bytes8(0x5555_5555_1000)))
  {
    PieSteps();
    ObjectSums(DataSection(8), 0, [Call("g")], EXTERN_G);
    ObjectReadable(DataSection(8), 0, [Call("g")], EXTERN_G);
    OneSlotLoads(PIE_ELF, PIE_ENV, Patch(0, Bytes4(12)), Patch(8, Bytes8(0x5555_5555_1000)));
    PutHolds(DataImage(PIE_ELF), Patch(8, Bytes8(0x5555_5555_1000)));
  }

  // ----- Symbols outside the first section, and names with two dots ---------------------------------------------

  const OWN_X: map<string, Symbol> := map["x" := Symbol(0, SttObject, InSection(1))]
  const READ_X: Reloc := Reloc(".rela" + ".text", 0, Pc32, "x", -4, 0, None)

  const X_ELF: Elf := Object(DataSection(8), 0, [READ_X], OWN_X)
  const X_ENV: Env := Linkage(X_ELF, map[])

  lemma ReadXAddresses()
    ensures DataSize(X_ELF) == Some(8) && SegmentsApart(X_ENV) && SectionAddress(X_ENV, 0) == Some(TEXT)
    ensures Led(X_ELF, READ_X) && Place(X_ENV, READ_X) == Some(TEXT) && SymbolAddress(X_ENV, READ_X) == Some(DATA)
    ensures X_ENV.gots == [] && X_ENV.plts == [] && FromLastDot(READ_X.shdrname) == Some(".text")
  {
    ObjectSums(DataSection(8), 0, [READ_X], OWN_X);
    NoEntries(READ_X, 16);
    ObjectBss(DataSection(8), 0, [READ_X], OWN_X);
    ObjectSought(DataSection(8), 0, [READ_X], OWN_X);
    TextMapped(X_ELF);
    RelaNames(".text");
  }

  lemma ReadXStep()
    ensures RelocSteps(X_ENV, [READ_X]) == [Writes(Patch(0, Bytes4(0xffff_fffc)))]
    ensures Aim(X_ENV, READ_X) == Some(TEXT - 4)
  {
    ReadXAddresses();
    assert |".text"| != |".eh_frame"|;
    OnlyStep(X_ENV, READ_X, ".text", 0, Field(4, -4));
  }

  lemma ReadXPlaced()
    ensures WellPlaced(X_ELF, X_ENV) && CanLoad(X_ELF, X_ENV)
  {
    ReadXStep();
    ReadXAddresses();
    FindMapSought(X_ENV, ".text");
    ObjectReadable(DataSection(8), 0, [READ_X], OWN_X);
    assert RelocSteps(X_ENV, [READ_X])[0] == RelocStep(X_ENV, READ_X);
  }

  /** A variable at the start of `.data`, read with a PC32 relocation: the field gives the start of the text
      segment, not the variable. */
  lemma VariableMissed()
    ensures DataFits(X_ELF) && StoresInside(X_ELF, X_ENV) && Loads(X_ELF, X_ENV)
    ensures SymbolAddress(X_ENV, READ_X) == Some(DATA) && Place(X_ENV, READ_X) == Some(TEXT)
    ensures FieldGives(X_ENV, READ_X, LoadedImage(X_ELF, X_ENV).text, Some(TEXT - 4))
    ensures !FieldGives(X_ENV, READ_X, LoadedImage(X_ELF, X_ENV).text, Some(DATA - 4))
  {
    ReadXPlaced();
    ReadXStep();
    ReadXAddresses();
    TextMapped(X_ELF);
    LoadedFieldDenotes(X_ELF, X_ENV, 0);
  }

  const INIT: Section := Section(".init.text", true, false, true, 16, 16)
  const INIT_CALL: Reloc := Reloc(".rela" + ".init.text", 0, Plt32, "g", -4, 1, None)
  const INIT_ELF: Elf := Object(INIT, 0, [INIT_CALL], EXTERN_G)
  const INIT_ENV: Env := Linkage(INIT_ELF, SHIVA_G)

  /** The relocations of `.init.text` are taken for relocations of `.text`. */
  lemma InitTextLost()
    ensures FromLastDot(".rela" + ".init.text") == Some(".text")
  {
    assert ".rela" + ".init.text" == ".rela.init" + ".text";
    FromLastDotAppend(".rela.init", ".text");
    FromLastDotAppend(".rela", ".text");
    RelaNames(".text");
  }

  lemma InitSums()
    ensures Mapped(INIT_ELF.sections[0]) && Mapped(INIT_ELF.sections[1])
    ensures SumUpTo(INIT_ELF.sections, Mapped, 0) == 0 && SumUpTo(INIT_ELF.sections, Mapped, 1) == 16
    ensures SumSizes(INIT_ELF.sections, Mapped) == SumSizes(INIT_ELF.sections, InText) == 32
    ensures SumSizes(INIT_ELF.sections, MappedData) == GotOffset(INIT_ELF) == 0
    ensures TextSize(INIT_ELF) == 38 && DataSize(INIT_ELF) == Some(8)
  {
    var s := INIT_ELF.sections;
    TextMapped(INIT_ELF);
    NoNote(".init.text");
    assert |".init.text"| != |".eh_frame"| && |".init.text"| != |".bss"|;
    assert SumUpTo(s, Mapped, 1) == 16 && SumUpTo(s, Mapped, 2) == 32;
    assert SumUpTo(s, InText, 1) == 16 && SumUpTo(s, InText, 2) == 32;
    assert SumUpTo(s, MappedData, 1) == 0 && SumUpTo(s, MappedData, 2) == 0;
    assert SumUpTo(s, PlainData, 1) == 0 && SumUpTo(s, PlainData, 2) == 0;
    ObjectBss(INIT, 0, [INIT_CALL], EXTERN_G);
    InitLists();
  }

  lemma InitLists()
    ensures GotList([INIT_CALL]) == [GotEntry("g", 0)] && CountPlt([INIT_CALL]) == 1
    ensures PltList([INIT_CALL], TEXT, 32) == [PltEntry("g", TEXT + 32, 32)]
  {
    assert GotUpTo([INIT_CALL], 0) == [] && PltUpTo([INIT_CALL], 0) == 0;
    assert StubsUpTo([INIT_CALL], TEXT, 32, 0) == [];
  }

  lemma InitSteps()
    ensures RelocSteps(INIT_ENV, [INIT_CALL]) == [Writes(Patch(0, Bytes4(28)))]
    ensures GotSteps(INIT_ENV) == [Writes(Patch(0, Bytes8(0x40_0000)))]
    ensures |INIT_ENV.plts| == 1 && INIT_ENV.pltOff == 32 && Place(INIT_ENV, INIT_CALL) == Some(TEXT + 16)
  {
    InitSums();
    InitLists();
    InitTextLost();
    assert Named(INIT_ELF.sections, Mapped, ".text", 0);
    assert |".text"| != |".eh_frame"|;
    OnlyStep(INIT_ENV, INIT_CALL, ".text", 0, Field(4, 28));
    assert GotStep(INIT_ENV, GotEntry("g", 0)) == Writes(Patch(0, Bytes8(0x40_0000)));
  }

  /** A call at the start of `.init.text`, behind 16 bytes of `.text`: the field is stored in `.text`, and the call
      is left as it is in the file. */
  lemma InitCallMissed()
    ensures DataFits(INIT_ELF) && StoresInside(INIT_ELF, INIT_ENV) && Loads(INIT_ELF, INIT_ENV)
    ensures Place(INIT_ENV, INIT_CALL) == Some(TEXT + 16)
    ensures Holds(LoadedImage(INIT_ELF, INIT_ENV).text, Patch(0, Bytes4(28)))
    ensures Holds(LoadedImage(INIT_ELF, INIT_ENV).text, SectionPatch(INIT_ELF.file, INIT, 16))
  {
    InitSteps();
    InitSums();
    ObjectReadable(INIT, 0, [INIT_CALL], EXTERN_G);
    LoadsNow(INIT_ELF, INIT_ENV);
    InitTextKept();
  }

  lemma InitTextKept()
    requires Readable(INIT_ELF.file, INIT_ELF.sections, Mapped)
    requires DataFits(INIT_ELF) && StoresInside(INIT_ELF, INIT_ENV) && Loads(INIT_ELF, INIT_ENV)
    ensures Holds(LoadedImage(INIT_ELF, INIT_ENV).text, Patch(0, Bytes4(28)))
    ensures Holds(LoadedImage(INIT_ELF, INIT_ENV).text, SectionPatch(INIT_ELF.file, INIT, 16))
  {
    var image, p, init := TextImage(INIT_ELF), Patch(0, Bytes4(28)), SectionPatch(INIT_ELF.file, INIT, 16);
    InitSteps();
    InitImage();
    OneStep(image, RelocSteps(INIT_ENV, [INIT_CALL]), p);
    PutHolds(image, p);
    HoldsKept(image, init, p);
    StubPassKeeps(Put(image, p), p);
    StubPassKeeps(Put(image, p), init);
  }

  lemma InitImage()
    requires Readable(INIT_ELF.file, INIT_ELF.sections, Mapped)
    ensures Holds(TextImage(INIT_ELF), SectionPatch(INIT_ELF.file, INIT, 16))
  {
    InitSums();
    InitLists();
    var sections := INIT_ELF.sections;
    var image := SegmentImage(INIT_ELF.file, sections, Mapped, TextLength(INIT_ELF));
    assert sections[1] == INIT;
    SectionsMapped(INIT_ELF.file, sections, Mapped, TextLength(INIT_ELF), 3, 1);
    HoldsKept(image, SectionPatch(INIT_ELF.file, INIT, 16), Patch(32, STUB));
    assert WithStubs(image, 32, 0) == image;
    assert TextImage(INIT_ELF) == Put(image, Patch(32, STUB));
  }

  lemma StubPassKeeps(image: seq<byte>, p: Patch)
    requires Holds(image, p) && p.off + |p.bytes| <= 32 && StepsInside(StubSteps(INIT_ENV), |image|)
    ensures Holds(After(image, StubSteps(INIT_ENV)), p)
  {
    InitSteps();
    BuiltLayout(INIT_ELF, INIT_ENV);
    StubsSucceed(INIT_ENV);
    AfterSuccess(image, StubSteps(INIT_ENV));
    StubStepAt(INIT_ENV, 0);
    HoldsThrough(image, StubSteps(INIT_ENV), 1, p);
  }
}
