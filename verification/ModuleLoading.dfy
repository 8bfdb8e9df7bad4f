/** When the linker's stores stay inside its segments, and what a loaded module does (shiva_module.c). */
module ModuleLoading {
  import opened Bytes
  import opened Pages
  import opened Modular
  import opened Patching
  import opened ModuleLayout
  import opened ModuleReloc
  import opened ModulePsabi
  import opened ModuleRun
  import opened ModuleLinker

  // ----- The GOT in the data segment ---------------------------------------------------------

  predicate OnlyPlainData(elf: Elf) {
    forall k :: 0 <= k < |elf.sections| && MappedData(elf.sections[k]) ==> PlainData(elf.sections[k])
  }

  /** Plain data sections fit in the data segment. */
  lemma PlainDataFits(elf: Elf)
    requires OnlyPlainData(elf)
    ensures DataFits(elf)
  {
    GotAfterData(elf.sections);
  }

  /** Every slot of the GOT is inside the data segment, and after the data sections if and only if these
      are all plain. */
  lemma GotInSegment(elf: Elf, k: nat)
    requires DataSize(elf).Some? && k < |GotList(elf.relocs)|
    ensures GotOffset(elf) + 8 * k + 8 <= DataLength(elf)
    ensures SumSizes(elf.sections, MappedData) <= GotOffset(elf) <==> OnlyPlainData(elf)
  {
    GotAfterData(elf.sections);
  }

  // ----- Stores inside their segments -----------------------------------------------------------

  lemma BuiltLayout(elf: Elf, env: Env)
    requires Built(elf, env)
    ensures Layout(env)
  {
    EnvHasLayout(elf, env.self, env.bias, env.textVaddr, env.dataVaddr);
  }

  /** Relocations that are placed in their sections are stored inside the text segment. */
  lemma RelocStoresInside(elf: Elf, env: Env)
    requires Built(elf, env) && FieldsPlaced(env, elf.relocs)
    ensures StepsInside(RelocSteps(env, elf.relocs), TextLength(elf))
  {
    BuiltLayout(elf, env);
    TextFits(elf);
    forall i | 0 <= i < |elf.relocs| && RelocSteps(env, elf.relocs)[i].Writes?
      ensures Inside(RelocSteps(env, elf.relocs)[i].p, TextLength(elf))
    {
      FieldsEndBeforeStubs(env, elf.relocs, i);
    }
  }

  /** The store for slot k of a module-local symbol, at eight times its offset, is inside. */
  predicate LocalStoreFits(elf: Elf, k: nat) {
    8 * (GotOffset(elf) + 8 * k) + 8 <= DataLength(elf)
  }

  ghost predicate LocalStoresFit(elf: Elf, env: Env) {
    forall k: nat {:trigger LocalStoreFits(elf, k)} :: k < |env.gots| && Local(env, env.gots[k].symname) ==>
      LocalStoreFits(elf, k)
  }

  lemma GotStoreInside(elf: Elf, env: Env, k: nat)
    requires Built(elf, env) && DataSize(elf).Some? && k < |env.gots| && GotStep(env, env.gots[k]).Writes?
    ensures Inside(GotStep(env, env.gots[k]).p, DataLength(elf)) <==>
            (Local(env, env.gots[k].symname) ==> LocalStoreFits(elf, k))
  {
    BuiltLayout(elf, env);
    assert env.gots[k].gotoff == 8 * k;
    GotInSegment(elf, k);
  }

  /** GOT stores stay inside the data segment if and only if those for the module's own symbols do, which
      is a matter of how far eight times their offset reaches. */
  lemma GotStoresInside(elf: Elf, env: Env)
    requires Built(elf, env) && DataSize(elf).Some?
    ensures StepsInside(GotSteps(env), DataLength(elf)) <==> LocalStoresFit(elf, env)
  {
    forall k: nat | k < |env.gots| && GotSteps(env)[k].Writes?
      ensures Inside(GotSteps(env)[k].p, DataLength(elf)) <==>
              (Local(env, env.gots[k].symname) ==> LocalStoreFits(elf, k))
    {
      GotStoreInside(elf, env, k);
    }
    if StepsInside(GotSteps(env), DataLength(elf)) {
      forall k: nat | k < |env.gots| && Local(env, env.gots[k].symname)
        ensures LocalStoreFits(elf, k)
      {
        assert GotSteps(env)[k].Writes?;
      }
    }
  }

  // ----- Loading ------------------------------------------------------------------------------------

  /** Plain data, relocations placed in their sections, and no store for an own symbol that leaves the
      segment. */
  ghost predicate WellPlaced(elf: Elf, env: Env) {
    Built(elf, env) && OnlyPlainData(elf) && FieldsPlaced(env, elf.relocs) && LocalStoresFit(elf, env)
  }

  /** Sections can be read, and every relocation and every slot can be resolved. */
  ghost predicate CanLoad(elf: Elf, env: Env) {
    && DataReadable(elf) && Readable(elf.file, elf.sections, Mapped)
    && Succeeds(RelocSteps(env, elf.relocs)) && Succeeds(GotSteps(env))
  }

  lemma StubsSucceed(env: Env)
    requires Layout(env)
    ensures Succeeds(StubSteps(env))
  {
    forall k: nat | k < |env.plts|
      ensures !StubSteps(env)[k].Fails?
    {
      StubStepAt(env, k);
    }
  }

  /** Such a module's stores are all inside its segments, and it loads if and only if it can. */
  lemma WellPlacedLoads(elf: Elf, env: Env)
    requires WellPlaced(elf, env) && DataSize(elf).Some?
    ensures DataFits(elf) && StoresInside(elf, env) && (Loads(elf, env) <==> CanLoad(elf, env))
  {
    PlainDataFits(elf);
    RelocStoresInside(elf, env);
    GotStoresInside(elf, env);
    BuiltLayout(elf, env);
    StubsSucceed(env);
    StubStepsInside(elf, env);
  }

  lemma LoadedWell(elf: Elf, env: Env)
    requires WellPlaced(elf, env) && CanLoad(elf, env)
    ensures DataFits(elf) && StoresInside(elf, env) && Loads(elf, env)
    ensures Layout(env) && StubsPresent(env, TextImage(elf))
  {
    WellPlacedLoads(elf, env);
    BuiltLayout(elf, env);
    TextImageHasStubs(elf, env.self, env.bias, env.textVaddr, env.dataVaddr);
  }

  /** A module that loads in the first 2 GB: a call with a PLT32 relocation against a symbol of Shiva
      goes to a stub for that symbol and from there to the symbol. */
  lemma LoadedCallReaches(elf: Elf, env: Env, i: nat)
    requires WellPlaced(elf, env) && CanLoad(elf, env) && Low(env)
    requires i < |elf.relocs| && Applied(elf.relocs[i]) && Led(elf, elf.relocs[i])
    requires elf.relocs[i].ty == Plt32 && elf.relocs[i].addend == -4 && !Local(env, elf.relocs[i].symname)
    ensures DataFits(elf) && StoresInside(elf, env) && Loads(elf, env)
    ensures CallArrives(LoadedImage(elf, env), env, elf.relocs[i])
  {
    LoadedWell(elf, env);
    LowCallReaches(env, elf.relocs, Image(TextImage(elf), DataImage(elf)), i);
  }

  /** The same in the large code model, from a GOTPC64 and a PLTOFF64 relocation. */
  lemma LoadedLargeCallReaches(elf: Elf, env: Env, i: nat, j: nat)
    requires WellPlaced(elf, env) && CanLoad(elf, env) && Low(env)
    requires i < |elf.relocs| && Applied(elf.relocs[i]) && Led(elf, elf.relocs[i]) && elf.relocs[i].ty == GotPc64
    requires j < |elf.relocs| && Applied(elf.relocs[j]) && Led(elf, elf.relocs[j]) && elf.relocs[j].ty == PltOff64
    requires !Local(env, elf.relocs[j].symname)
    ensures DataFits(elf) && StoresInside(elf, env) && Loads(elf, env)
    ensures LargeArrives(LoadedImage(elf, env), env, elf.relocs[i], elf.relocs[j])
  {
    LoadedWell(elf, env);
    LowSlotsNear(env);
    LargeCallReaches(env, elf.relocs, Image(TextImage(elf), DataImage(elf)), i, j);
  }

  ghost predicate LargeArrives(im: Image, env: Env, base: Reloc, off: Reloc) {
    && Place(env, base).Some? && Place(env, off).Some? && FindPlt(env.plts, off.symname).Some?
    && LargeSum(im, env, base, off) && Arrives(im, env, FindPlt(env.plts, off.symname).value.vaddr, off.symname)
  }

  /** A relocated field of a loaded module gives the psABI's address if the relocation is homed, and otherwise
      does not, as far as the addresses are in its reach. */
  lemma LoadedFieldDenotes(elf: Elf, env: Env, i: nat)
    requires WellPlaced(elf, env) && CanLoad(elf, env) && SegmentsApart(env)
    requires i < |elf.relocs| && Applied(elf.relocs[i]) && Led(elf, elf.relocs[i]) && WellFormed(elf, elf.relocs[i])
    ensures DataFits(elf) && StoresInside(elf, env) && Loads(elf, env)
    ensures FieldGives(env, elf.relocs[i], LoadedImage(elf, env).text, Aim(env, elf.relocs[i]))
    ensures Homed(env, elf.relocs[i]) ==>
              FieldGives(env, elf.relocs[i], LoadedImage(elf, env).text, Psabi(env, elf.relocs[i]))
    ensures AddressesInReach(env, elf.relocs[i]) && !Homed(env, elf.relocs[i]) ==>
              !FieldGives(env, elf.relocs[i], LoadedImage(elf, env).text, Psabi(env, elf.relocs[i]))
  {
    LoadedWell(elf, env);
    FieldsAim(env, elf.relocs, Image(TextImage(elf), DataImage(elf)), i);
    FieldsDenote(env, elf.relocs, Image(TextImage(elf), DataImage(elf)), i);
  }

  // ----- Where Shiva's symbols are -------------------------------------------------------------------

  /** The module that shiva_module_loader makes, from its constructor on. */
  method LoadModule(elf: Elf, self: map<string, Symbol>, standalone: bool, shivaBase: nat, textAt: nat, dataAt: nat)
    returns (ok: bool, m: ShivaModule)
    requires DataFits(elf)
    requires StoresInside(elf, ShivaEnv(elf, self, standalone, shivaBase, textAt, dataAt))
    ensures ok == Loads(elf, ShivaEnv(elf, self, standalone, shivaBase, textAt, dataAt))
    ensures ok ==> Image(m.textMem[..], m.dataMem[..]) ==
                   LoadedImage(elf, ShivaEnv(elf, self, standalone, shivaBase, textAt, dataAt))
  {
    m := new ShivaModule(elf, self, standalone, shivaBase);
    ok := m.ShivaModuleLoader(textAt, dataAt);
  }

  function ShivaEnv(elf: Elf, self: map<string, Symbol>, standalone: bool, shivaBase: nat, textAt: nat,
                    dataAt: nat): Env {
    EnvOf(elf, self, if standalone then 0 else shivaBase, textAt, DataAddress(elf, dataAt))
  }

  /** In such a module the slot of a symbol of Shiva holds the symbol's value, to which Shiva's base has been added
      unless Shiva is standalone. */
  lemma ShivaSlot(elf: Elf, self: map<string, Symbol>, standalone: bool, shivaBase: nat, textAt: nat, dataAt: nat,
                  k: nat)
    requires DataFits(elf) && StoresInside(elf, ShivaEnv(elf, self, standalone, shivaBase, textAt, dataAt))
    requires Loads(elf, ShivaEnv(elf, self, standalone, shivaBase, textAt, dataAt))
    requires var env := ShivaEnv(elf, self, standalone, shivaBase, textAt, dataAt);
             k < |env.gots| && !Local(env, env.gots[k].symname)
    ensures var env := ShivaEnv(elf, self, standalone, shivaBase, textAt, dataAt);
            var word := Load(LoadedImage(elf, env).data, env.dataVaddr, env.Got() + 8 * k, 8);
            && env.gots[k].symname in self && word.Some?
            && Word8(word.value) == (self[env.gots[k].symname].value + (if standalone then 0 else shivaBase)) % WORD
  {
    var env := ShivaEnv(elf, self, standalone, shivaBase, textAt, dataAt);
    BuiltLayout(elf, env);
    SlotResolved(env, elf.relocs, Image(TextImage(elf), DataImage(elf)), k);
    WordLoaded(LoadedImage(elf, env).data, env.dataVaddr, env.pltgotOff + 8 * k,
               SelfAddress(env, env.gots[k].symname).value % WORD);
  }

  lemma WordLoaded(data: seq<byte>, base: nat, off: nat, v: nat)
    requires Holds(data, Patch(off, Bytes8(v))) && v < WORD
    ensures Load(data, base, base + off, 8) == Some(Bytes8(v)) && Word8(Bytes8(v)) == v
  {
    Word8Bytes8(v);
  }

  /** And a call against it arrives there. */
  lemma ShivaCall(elf: Elf, self: map<string, Symbol>, standalone: bool, shivaBase: nat, textAt: nat, dataAt: nat,
                  i: nat)
    requires var env := ShivaEnv(elf, self, standalone, shivaBase, textAt, dataAt);
             && WellPlaced(elf, env) && CanLoad(elf, env) && Low(env)
             && i < |elf.relocs| && Applied(elf.relocs[i]) && Led(elf, elf.relocs[i])
             && elf.relocs[i].ty == Plt32 && elf.relocs[i].addend == -4 && !Local(env, elf.relocs[i].symname)
    ensures var env, r := ShivaEnv(elf, self, standalone, shivaBase, textAt, dataAt), elf.relocs[i];
            && DataFits(elf) && StoresInside(elf, env) && Loads(elf, env) && Place(env, r).Some? && r.symname in self
            && CallEndsAt(LoadedImage(elf, env), env, Place(env, r).value,
                          (self[r.symname].value + (if standalone then 0 else shivaBase)) % WORD)
  {
    var env := ShivaEnv(elf, self, standalone, shivaBase, textAt, dataAt);
    LoadedCallReaches(elf, env, i);
    var im := LoadedImage(elf, env);
    ArrivesInShiva(im, env, CallGoes(im, env, Place(env, elf.relocs[i]).value).value, elf.relocs[i].symname);
  }

  /** The call goes to a stub that jumps to the address. */
  ghost predicate CallEndsAt(im: Image, env: Env, place: int, to: int) {
    CallGoes(im, env, place).Some? && StubGoes(im, env, CallGoes(im, env, place).value) == Some(to)
  }

  /** The same in the large code model. */
  lemma ShivaLargeCall(elf: Elf, self: map<string, Symbol>, standalone: bool, shivaBase: nat, textAt: nat, dataAt: nat,
                       i: nat, j: nat)
    requires var env := ShivaEnv(elf, self, standalone, shivaBase, textAt, dataAt);
             && WellPlaced(elf, env) && CanLoad(elf, env) && Low(env)
             && i < |elf.relocs| && Applied(elf.relocs[i]) && Led(elf, elf.relocs[i]) && elf.relocs[i].ty == GotPc64
             && j < |elf.relocs| && Applied(elf.relocs[j]) && Led(elf, elf.relocs[j]) && elf.relocs[j].ty == PltOff64
             && !Local(env, elf.relocs[j].symname)
    ensures var env, r := ShivaEnv(elf, self, standalone, shivaBase, textAt, dataAt), elf.relocs[j];
            && DataFits(elf) && StoresInside(elf, env) && Loads(elf, env) && r.symname in self
            && LargeArrives(LoadedImage(elf, env), env, elf.relocs[i], r)
            && StubGoes(LoadedImage(elf, env), env, FindPlt(env.plts, r.symname).value.vaddr) ==
               Some((self[r.symname].value + (if standalone then 0 else shivaBase)) % WORD)
  {
    var env := ShivaEnv(elf, self, standalone, shivaBase, textAt, dataAt);
    LoadedLargeCallReaches(elf, env, i, j);
    ArrivesInShiva(LoadedImage(elf, env), env, FindPlt(env.plts, elf.relocs[j].symname).value.vaddr,
                   elf.relocs[j].symname);
  }

  lemma ArrivesInShiva(im: Image, env: Env, stub: int, name: string)
    requires Arrives(im, env, stub, name)
    ensures name in env.self && StubGoes(im, env, stub) == Some((env.self[name].value + env.bias) % WORD)
  {
  }

  /** A PC32 field against such a symbol, undefined in the module or without a type there, gives that address and
      the addend. */
  lemma ShivaField(elf: Elf, self: map<string, Symbol>, standalone: bool, shivaBase: nat, textAt: nat, dataAt: nat,
                   i: nat)
    requires var env := ShivaEnv(elf, self, standalone, shivaBase, textAt, dataAt);
             && WellPlaced(elf, env) && CanLoad(elf, env)
             && i < |elf.relocs| && Applied(elf.relocs[i]) && Led(elf, elf.relocs[i])
             && elf.relocs[i].ty == Pc32 && elf.relocs[i].symname != [] && elf.relocs[i].symname[0] != '.'
             && (elf.relocs[i].symname in elf.symbols ==> elf.symbols[elf.relocs[i].symname].ty == SttNoType)
    ensures var env, r := ShivaEnv(elf, self, standalone, shivaBase, textAt, dataAt), elf.relocs[i];
            && DataFits(elf) && StoresInside(elf, env) && Loads(elf, env) && r.symname in self
            && FieldGives(env, r, LoadedImage(elf, env).text,
                          Some(self[r.symname].value + (if standalone then 0 else shivaBase) + r.addend))
  {
    var env := ShivaEnv(elf, self, standalone, shivaBase, textAt, dataAt);
    LoadedWell(elf, env);
    FieldsAim(env, elf.relocs, Image(TextImage(elf), DataImage(elf)), i);
  }

  // ----- Data and .bss -------------------------------------------------------------------------------

  /** Without symbols of its own in the GOT, a loaded module's data sections are as they are in the file. */
  lemma DataSectionsKept(elf: Elf, env: Env, k: nat)
    requires WellPlaced(elf, env) && CanLoad(elf, env) && k < |elf.sections| && MappedData(elf.sections[k])
    requires forall j :: 0 <= j < |env.gots| ==> !Local(env, env.gots[j].symname)
    ensures DataFits(elf) && StoresInside(elf, env) && Loads(elf, env) && InFile(elf.file, elf.sections[k])
    ensures Holds(LoadedImage(elf, env).data,
            SectionPatch(elf.file, elf.sections[k], SumUpTo(elf.sections, MappedData, k)))
  {
    LoadedWell(elf, env);
    GotAfterData(elf.sections);
    SumPrefix(elf.sections, MappedData, k + 1, |elf.sections|);
    SectionsMapped(elf.file, elf.sections, MappedData, DataLength(elf), |elf.sections|, k);
    var p := SectionPatch(elf.file, elf.sections[k], SumUpTo(elf.sections, MappedData, k));
    AfterSuccess(DataImage(elf), GotSteps(env));
    forall j | 0 <= j < |env.gots| && GotSteps(env)[j].Writes?
      ensures Apart(p, GotSteps(env)[j].p)
    {
      assert env.gots[j].gotoff == 8 * j;
    }
    HoldsThrough(DataImage(elf), GotSteps(env), |env.gots|, p);
  }

  /** No GOT store hits byte i of the data segment. */
  ghost predicate OffGot(env: Env, i: nat) {
    forall j :: 0 <= j < |env.gots| && GotStep(env, env.gots[j]).Writes? ==> !Covers(GotStep(env, env.gots[j]).p, i)
  }

  /** So a byte of a data section, the .bss included, reads zero if and only if the file has a zero at the
      section's offset. */
  lemma BssReadsZero(elf: Elf, env: Env, k: nat, i: nat)
    requires DataFits(elf) && StoresInside(elf, env) && Loads(elf, env)
    requires InData(elf, k) && i < elf.sections[k].size && OffGot(env, SumUpTo(elf.sections, MappedData, k) + i)
    ensures InFile(elf.file, elf.sections[k])
    ensures SumUpTo(elf.sections, MappedData, k) + i < |LoadedImage(elf, env).data|
    ensures LoadedImage(elf, env).data[SumUpTo(elf.sections, MappedData, k) + i] == 0 <==>
              elf.file[elf.sections[k].offset + i] == 0
  {
    DataByte(elf, k, i);
    OnlySlotsChange(env, elf.relocs, Image(TextImage(elf), DataImage(elf)), SumUpTo(elf.sections, MappedData, k) + i);
  }

  /** Before resolution a byte of a data section is the file's. */
  lemma DataByte(elf: Elf, k: nat, i: nat)
    requires DataFits(elf) && DataReadable(elf) && InData(elf, k) && i < elf.sections[k].size
    ensures InFile(elf.file, elf.sections[k]) && SumUpTo(elf.sections, MappedData, k) + i < |DataImage(elf)|
    ensures DataImage(elf)[SumUpTo(elf.sections, MappedData, k) + i] == elf.file[elf.sections[k].offset + i]
  {
    var off := SumUpTo(elf.sections, MappedData, k);
    SumPrefix(elf.sections, MappedData, k + 1, |elf.sections|);
    SectionsMapped(elf.file, elf.sections, MappedData, DataLength(elf), |elf.sections|, k);
    HeldByte(DataImage(elf), SectionPatch(elf.file, elf.sections[k], off), off + i);
  }

  /** A module whose .bss runs past the end of its file does not load. */
  lemma BssPastEnd(elf: Elf, env: Env, k: nat)
    requires DataFits(elf) && StoresInside(elf, env)
    requires k < |elf.sections| && FindSection(elf.sections, ".bss") == Some(elf.sections[k])
    requires MappedData(elf.sections[k]) && !InFile(elf.file, elf.sections[k])
    ensures !Loads(elf, env)
  {
  }
}
