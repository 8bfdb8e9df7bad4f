/** The module linker's state and its passes over it (shiva_module.c). */
module ModuleLinker {
  import opened Bytes
  import opened Pages
  import opened Modular
  import opened Patching
  import opened ModuleLayout
  import opened ModuleReloc
  import opened ModulePsabi
  import opened ModuleRun

  // ----- The images before relocation ------------------------------------------------------

  function Zeros(n: nat): (r: seq<byte>)
    ensures |r| == n && forall i :: 0 <= i < n ==> r[i] == 0
  {
    seq(n, _ => 0)
  }

  predicate InFile(file: seq<byte>, s: Section) { s.offset + s.size <= |file| }

  /** Those of the first n sections that are to be mapped can be read. */
  predicate ReadableUpTo(file: seq<byte>, sections: seq<Section>, keep: Section -> bool, n: nat)
    requires n <= |sections|
  {
    forall k :: 0 <= k < n && keep(sections[k]) ==> InFile(file, sections[k])
  }

  predicate Readable(file: seq<byte>, sections: seq<Section>, keep: Section -> bool) {
    ReadableUpTo(file, sections, keep, |sections|)
  }

  function SectionPatch(file: seq<byte>, s: Section, off: nat): Patch
    requires InFile(file, s)
  {
    Patch(off, file[s.offset..s.offset + s.size])
  }

  /** A segment of `size` bytes with the first n sections mapped into it. */
  ghost function SegmentUpTo(file: seq<byte>, sections: seq<Section>, keep: Section -> bool, size: nat,
                             n: nat): (r: seq<byte>)
    requires n <= |sections| && ReadableUpTo(file, sections, keep, n) && SumUpTo(sections, keep, n) <= size
    ensures |r| == size
  {
    if n == 0 then Zeros(size)
    else if !keep(sections[n - 1]) then SegmentUpTo(file, sections, keep, size, n - 1)
    else Put(SegmentUpTo(file, sections, keep, size, n - 1),
      SectionPatch(file, sections[n - 1], SumUpTo(sections, keep, n - 1)))
  }

  ghost function SegmentImage(file: seq<byte>, sections: seq<Section>, keep: Section -> bool, size: nat): (r: seq<byte>)
    requires Readable(file, sections, keep) && SumSizes(sections, keep) <= size
    ensures |r| == size
  {
    SegmentUpTo(file, sections, keep, size, |sections|)
  }

  /** Every mapped section's bytes are in the image, where the sections before it end. */
  lemma {:induction false} SectionsMapped(file: seq<byte>, sections: seq<Section>, keep: Section -> bool, size: nat,
                                          n: nat, k: nat)
    requires k < n <= |sections| && ReadableUpTo(file, sections, keep, n) && SumUpTo(sections, keep, n) <= size &&
             keep(sections[k])
    ensures Holds(SegmentUpTo(file, sections, keep, size, n),
            SectionPatch(file, sections[k], SumUpTo(sections, keep, k)))
  {
    var before := SegmentUpTo(file, sections, keep, size, n - 1);
    if k == n - 1 {
      PutHolds(before, SectionPatch(file, sections[k], SumUpTo(sections, keep, k)));
    } else {
      SectionsMapped(file, sections, keep, size, n - 1, k);
      if keep(sections[n - 1]) {
        SumPrefix(sections, keep, k + 1, n - 1);
        HoldsKept(before, SectionPatch(file, sections[k], SumUpTo(sections, keep, k)),
                  SectionPatch(file, sections[n - 1], SumUpTo(sections, keep, n - 1)));
      }
    }
  }

  /** The text image with n stubs copied behind its sections. */
  ghost function WithStubs(image: seq<byte>, pltOff: nat, n: nat): (r: seq<byte>)
    requires pltOff + STUB_SIZE * n <= |image|
    ensures |r| == |image|
  {
    if n == 0 then image else Put(WithStubs(image, pltOff, n - 1), Patch(pltOff + STUB_SIZE * (n - 1), STUB))
  }

  lemma {:induction false} StubHeld(image: seq<byte>, pltOff: nat, n: nat, k: nat)
    requires k < n && pltOff + STUB_SIZE * n <= |image|
    ensures Holds(WithStubs(image, pltOff, n), Patch(pltOff + STUB_SIZE * k, STUB))
  {
    var before := WithStubs(image, pltOff, n - 1);
    if k == n - 1 {
      PutHolds(before, Patch(pltOff + STUB_SIZE * k, STUB));
    } else {
      StubHeld(image, pltOff, n - 1, k);
      HoldsKept(before, Patch(pltOff + STUB_SIZE * k, STUB), Patch(pltOff + STUB_SIZE * (n - 1), STUB));
    }
  }

  function TextLength(elf: Elf): nat { PageAlign(TextSize(elf)) }

  /** create_text_image's result. */
  ghost function TextImage(elf: Elf): (r: seq<byte>)
    requires Readable(elf.file, elf.sections, Mapped)
    ensures |r| == TextLength(elf)
  {
    TextFits(elf);
    WithStubs(SegmentImage(elf.file, elf.sections, Mapped, TextLength(elf)), SumSizes(elf.sections, Mapped),
      CountPlt(elf.relocs))
  }

  /** The text image the linker builds has a stub for every PLT entry. */
  lemma TextImageHasStubs(elf: Elf, self: map<string, Symbol>, bias: nat, textVaddr: nat, dataVaddr: nat)
    requires Readable(elf.file, elf.sections, Mapped)
    ensures StubsPresent(EnvOf(elf, self, bias, textVaddr, dataVaddr), TextImage(elf))
  {
    TextFits(elf);
    forall k: nat | k < CountPlt(elf.relocs)
      ensures Holds(TextImage(elf), Patch(SumSizes(elf.sections, Mapped) + STUB_SIZE * k, STUB))
    {
      StubHeld(SegmentImage(elf.file, elf.sections, Mapped, TextLength(elf)), SumSizes(elf.sections, Mapped),
        CountPlt(elf.relocs), k);
    }
  }

  /** The hash cache and the list give the same entry for every symbol. */
  ghost predicate CacheAgrees(cache: map<string, GotEntry>, list: seq<GotEntry>) {
    forall name :: FindGot(list, name) == if name in cache then Some(cache[name]) else None
  }

  class ShivaModule {
    const elf: Elf
    const self: map<string, Symbol>
    const bias: nat
    var textSize: nat
    var dataSize: nat
    var pltOff: nat
    var pltSize: nat
    var pltCount: nat
    var pltgotOff: nat
    var pltgotSize: nat
    var textVaddr: nat
    var dataVaddr: nat
    var textMem: array<byte>
    var dataMem: array<byte>
    var maps: seq<Mapping>
    var plts: seq<PltEntry>
    var gots: seq<GotEntry>
    var cache: map<string, GotEntry>

    constructor (elf: Elf, self: map<string, Symbol>, standalone: bool, shivaBase: nat)
      ensures this.elf == elf && this.self == self && bias == (if standalone then 0 else shivaBase)
      ensures textSize == dataSize == pltOff == pltSize == pltCount == pltgotOff == pltgotSize == 0
      ensures textVaddr == dataVaddr == 0 && maps == [] && plts == [] && gots == [] && cache == map[]
      ensures fresh(textMem) && fresh(dataMem) && textMem.Length == dataMem.Length == 0
    {
      this.elf, this.self := elf, self;
      bias := if standalone then 0 else shivaBase;
      textSize, dataSize, pltOff, pltSize, pltCount, pltgotOff, pltgotSize := 0, 0, 0, 0, 0, 0, 0;
      textVaddr, dataVaddr := 0, 0;
      maps, plts, gots, cache := [], [], [], map[];
      textMem := new byte[0];
      dataMem := new byte[0];
    }

    ghost function View(): Env
      reads this
    {
      Env(elf, self, bias, textVaddr, dataVaddr, pltgotOff, pltOff, maps, plts, gots)
    }

    // ----- Sizes ---------------------------------------------------------------------------

    method CalculateTextSize()
      modifies this`textSize, this`pltOff, this`pltSize, this`pltCount
      ensures textSize == old(textSize) + TextSize(elf)
      ensures pltOff == old(textSize) + SumSizes(elf.sections, InText)
      ensures pltCount == old(pltCount) + CountPlt(elf.relocs)
      ensures pltSize == old(pltSize) + STUB_SIZE * CountPlt(elf.relocs)
    {
      var i := 0;
      while i < |elf.sections|
        invariant i <= |elf.sections|
        invariant textSize == old(textSize) + SumUpTo(elf.sections, InText, i)
        invariant pltSize == old(pltSize) && pltCount == old(pltCount)
      {
        var section := elf.sections[i];
        if section.alloc && !section.write {
          textSize := textSize + section.size;
        }
        i := i + 1;
      }
      pltOff := textSize;
      i := 0;
      while i < |elf.relocs|
        invariant i <= |elf.relocs|
        invariant pltOff == old(textSize) + SumSizes(elf.sections, InText)
        invariant textSize == pltOff + STUB_SIZE * PltUpTo(elf.relocs, i)
        invariant pltSize == old(pltSize) + STUB_SIZE * PltUpTo(elf.relocs, i)
        invariant pltCount == old(pltCount) + PltUpTo(elf.relocs, i)
      {
        var rel := elf.relocs[i];
        if rel.ty == Plt32 || rel.ty == PltOff64 {
          pltSize := pltSize + STUB_SIZE;
          textSize := textSize + STUB_SIZE;
          pltCount := pltCount + 1;
        }
        i := i + 1;
      }
    }

    /** Fails if and only if there is no .bss section. */
    method CalculateDataSize() returns (ok: bool)
      requires dataSize == 0
      modifies this`dataSize, this`pltgotOff, this`pltgotSize, this`gots, this`cache
      ensures ok == DataSize(elf).Some?
      ensures pltgotOff == GotOffset(elf)
      ensures ok ==> dataSize == DataSize(elf).value && pltgotSize == old(pltgotSize) + 8 * |gots|
      ensures ok ==> gots == GotList(elf.relocs) && CacheAgrees(cache, gots)
    {
      var i := 0;
      while i < |elf.sections|
        invariant i <= |elf.sections|
        invariant dataSize == SumUpTo(elf.sections, PlainData, i)
        invariant pltgotSize == old(pltgotSize)
      {
        var section := elf.sections[i];
        if section.alloc && section.write && !section.other {
          dataSize := dataSize + section.size;
        }
        i := i + 1;
      }
      pltgotOff := dataSize;
      var bss := FindSection(elf.sections, ".bss");
      if bss.None? {
        return false;
      }
      dataSize := dataSize + bss.value.size;
      AddGotEntries();
      return true;
    }

    /** The last loop of calculate_data_size. */
    method AddGotEntries()
      modifies this`dataSize, this`pltgotSize, this`gots, this`cache
      ensures dataSize == old(dataSize) + 8 * |gots| && pltgotSize == old(pltgotSize) + 8 * |gots|
      ensures gots == GotList(elf.relocs) && CacheAgrees(cache, gots)
    {
      cache := map[];
      gots := [];
      var offset, i := 0, 0;
      while i < |elf.relocs|
        invariant i <= |elf.relocs|
        invariant offset == 8 * |gots|
        invariant dataSize == old(dataSize) + offset && pltgotSize == old(pltgotSize) + offset
        invariant gots == GotUpTo(elf.relocs, i) && CacheAgrees(cache, gots)
      {
        var rel := elf.relocs[i];
        if (rel.ty == Plt32 || rel.ty == Got64 || rel.ty == PltOff64) && rel.symname !in cache {
          var entry := GotEntry(rel.symname, offset);
          CacheSnoc(cache, gots, entry);
          cache := cache[rel.symname := entry];
          gots := gots + [entry];
          offset := offset + 8;
          dataSize := dataSize + 8;
          pltgotSize := pltgotSize + 8;
        }
        i := i + 1;
      }
    }

    // ----- Images ---------------------------------------------------------------------------------

    /** elf_section_map: eight bytes at a time, then the rest one by one. A read past the end of
        the file fails, and then only bytes of the section's own range were written. */
    method ElfSectionMap(dst: array<byte>, section: Section, segmentOffset: nat) returns (ok: bool, next: nat)
      requires segmentOffset + section.size <= dst.Length && section.size > 0
      modifies dst
      ensures ok == InFile(elf.file, section)
      ensures ok ==> next == segmentOffset + section.size
      ensures ok ==> dst[..] == Put(old(dst[..]), SectionPatch(elf.file, section, segmentOffset))
      ensures forall k :: 0 <= k < dst.Length && !(segmentOffset <= k < segmentOffset + section.size) ==>
              dst[k] == old(dst[k])
    {
      next := segmentOffset;
      var i := 0;
      while i + 8 <= section.size
        invariant 0 <= i <= section.size
        invariant i > 0 ==> section.offset + i <= |elf.file|
        invariant forall k :: segmentOffset <= k < segmentOffset + i ==>
                  dst[k] == elf.file[section.offset + (k - segmentOffset)]
        invariant forall k :: 0 <= k < dst.Length && !(segmentOffset <= k < segmentOffset + i) ==> dst[k] == old(dst[k])
      {
        if section.offset + i + 8 > |elf.file| {
          return false, next;
        }
        forall k | 0 <= k < 8 {
          dst[segmentOffset + i + k] := elf.file[section.offset + i + k];
        }
        i := i + 8;
      }
      while i < section.size
        invariant 0 <= i <= section.size
        invariant i > 0 ==> section.offset + i <= |elf.file|
        invariant forall k :: segmentOffset <= k < segmentOffset + i ==>
                  dst[k] == elf.file[section.offset + (k - segmentOffset)]
        invariant forall k :: 0 <= k < dst.Length && !(segmentOffset <= k < segmentOffset + i) ==> dst[k] == old(dst[k])
      {
        if section.offset + i + 1 > |elf.file| {
          return false, next;
        }
        dst[segmentOffset + i] := elf.file[section.offset + i];
        i := i + 1;
      }
      return true, next + section.size;
    }

    /** The loop over sections in create_text_image and create_data_image: `keep` says which sections
        the segment takes. */
    method MapSections(dst: array<byte>, keep: Section -> bool, vaddr: nat, text: bool) returns (ok: bool, off: nat)
      requires forall s :: keep(s) ==> s.size > 0
      requires SumSizes(elf.sections, keep) <= dst.Length
      requires dst[..] == Zeros(dst.Length)
      modifies dst, this`maps
      ensures ok == Readable(elf.file, elf.sections, keep)
      ensures ok ==> off == SumSizes(elf.sections, keep)
      ensures ok ==> dst[..] == SegmentImage(elf.file, elf.sections, keep, dst.Length)
      ensures ok ==> maps == old(maps) + Maps(elf.sections, keep, vaddr, text)
    {
      off := 0;
      var i := 0;
      while i < |elf.sections|
        invariant i <= |elf.sections|
        invariant ReadableUpTo(elf.file, elf.sections, keep, i) && off == SumUpTo(elf.sections, keep, i) <= dst.Length
        invariant dst[..] == SegmentUpTo(elf.file, elf.sections, keep, dst.Length, i)
        invariant maps == old(maps) + MapsUpTo(elf.sections, keep, vaddr, text, i)
      {
        if keep(elf.sections[i]) {
          ok := MapNext(dst, keep, i, off, vaddr, text, old(maps));
          if !ok {
            return;
          }
          off := off + elf.sections[i].size;
        }
        i := i + 1;
      }
      return true, off;
    }

    /** The body of that loop for a section to be mapped; `before` are the mappings made earlier. */
    method MapNext(dst: array<byte>, keep: Section -> bool, i: nat, off: nat, vaddr: nat, text: bool,
                   ghost before: seq<Mapping>) returns (ok: bool)
      requires i < |elf.sections| && keep(elf.sections[i]) && elf.sections[i].size > 0
      requires SumSizes(elf.sections, keep) <= dst.Length
      requires ReadableUpTo(elf.file, elf.sections, keep, i) && off == SumUpTo(elf.sections, keep, i) <= dst.Length
      requires dst[..] == SegmentUpTo(elf.file, elf.sections, keep, dst.Length, i)
      requires maps == before + MapsUpTo(elf.sections, keep, vaddr, text, i)
      modifies dst, this`maps
      ensures ok == InFile(elf.file, elf.sections[i])
      ensures ok ==> off + elf.sections[i].size <= dst.Length
      ensures ok ==> dst[..] == SegmentUpTo(elf.file, elf.sections, keep, dst.Length, i + 1)
      ensures ok ==> maps == before + MapsUpTo(elf.sections, keep, vaddr, text, i + 1)
    {
      SumPrefix(elf.sections, keep, i + 1, |elf.sections|);
      ok := MapSection(dst, elf.sections[i], off, vaddr, text);
      if ok {
        SnocAssociates(before, MapsUpTo(elf.sections, keep, vaddr, text, i), maps[|maps| - 1]);
      }
    }

    /** One section: its bytes and its mapping. */
    method MapSection(dst: array<byte>, section: Section, off: nat, vaddr: nat, text: bool) returns (ok: bool)
      requires off + section.size <= dst.Length && section.size > 0
      modifies dst, this`maps
      ensures ok == InFile(elf.file, section)
      ensures ok ==> dst[..] == Put(old(dst[..]), SectionPatch(elf.file, section, off))
      ensures ok ==> maps == old(maps) + [Mapping(section.name, vaddr + off, off, section.size, text)]
    {
      var next;
      ok, next := ElfSectionMap(dst, section, off);
      if ok {
        maps := maps + [Mapping(section.name, vaddr + off, off, section.size, text)];
      }
    }

    /** Fails if and only if a section to be mapped cannot be read. */
    method CreateTextImage(vaddr: nat) returns (ok: bool)
      requires textSize == TextSize(elf) && maps == [] && plts == []
      modifies this`textMem, this`textVaddr, this`maps, this`pltOff, this`plts
      ensures ok == Readable(elf.file, elf.sections, Mapped)
      ensures textVaddr == vaddr && fresh(textMem)
      ensures ok ==> textMem[..] == TextImage(elf) && pltOff == SumSizes(elf.sections, Mapped)
      ensures ok ==> maps == Maps(elf.sections, Mapped, vaddr, true)
      ensures ok ==> plts == PltList(elf.relocs, vaddr, pltOff)
    {
      textMem := new byte[PageAlign(textSize)](_ => 0);
      textVaddr := vaddr;
      TextFits(elf);
      assert textMem[..] == Zeros(textMem.Length);
      ok, pltOff := MapSections(textMem, Mapped, vaddr, true);
      if ok {
        CopyStubs();
      }
    }

    /** The loop over relocations in create_text_image. */
    method CopyStubs()
      requires plts == [] && pltOff + STUB_SIZE * CountPlt(elf.relocs) <= textMem.Length
      modifies this`plts, textMem
      ensures plts == PltList(elf.relocs, textVaddr, pltOff)
      ensures textMem[..] == WithStubs(old(textMem[..]), pltOff, CountPlt(elf.relocs))
    {
      ghost var image := textMem[..];
      var i := 0;
      while i < |elf.relocs|
        invariant i <= |elf.relocs|
        invariant |plts| <= CountPlt(elf.relocs)
        invariant plts == StubsUpTo(elf.relocs, textVaddr, pltOff, i)
        invariant textMem[..] == WithStubs(image, pltOff, |plts|)
      {
        var rel := elf.relocs[i];
        PltPrefix(elf.relocs, i + 1, |elf.relocs|);
        assert |plts| == PltUpTo(elf.relocs, i);
        if rel.ty == Plt32 || rel.ty == PltOff64 {
          CopyStub(rel.symname, image);
        }
        i := i + 1;
      }
    }

    method CopyStub(symname: string, ghost image: seq<byte>)
      requires pltOff + STUB_SIZE * (|plts| + 1) <= textMem.Length == |image|
      requires textMem[..] == WithStubs(image, pltOff, |plts|)
      modifies this`plts, textMem
      ensures plts == old(plts) + [StubEntry(symname, textVaddr, pltOff, old(|plts|))]
      ensures textMem[..] == WithStubs(image, pltOff, |plts|)
    {
      var off := pltOff + STUB_SIZE * |plts|;
      Store(textMem, Patch(off, STUB));
      plts := plts + [PltEntry(symname, textVaddr + off, off)];
    }

    /** Needs the writable sections to fit in the size computed before; fails if and only if one of
        them cannot be read. */
    method CreateDataImage(vaddr: nat) returns (ok: bool)
      requires DataSize(elf) == Some(dataSize) && dataMem.Length == 0
      requires dataSize > 0 ==> SumSizes(elf.sections, MappedData) <= PageAlign(dataSize)
      modifies this`dataMem, this`dataVaddr, this`maps
      ensures ok == (dataSize > 0 ==> Readable(elf.file, elf.sections, MappedData))
      ensures dataVaddr == if dataSize > 0 then vaddr else old(dataVaddr)
      ensures dataSize == 0 ==> dataMem == old(dataMem)
      ensures dataSize > 0 ==> fresh(dataMem)
      ensures ok && dataSize > 0 ==>
              dataMem[..] == SegmentImage(elf.file, elf.sections, MappedData, PageAlign(dataSize))
      ensures ok ==> maps == old(maps) + DataMaps(elf, vaddr)
    {
      if dataSize == 0 {
        return true;
      }
      dataMem := new byte[PageAlign(dataSize)](_ => 0);
      dataVaddr := vaddr;
      assert dataMem[..] == Zeros(dataMem.Length);
      var off;
      ok, off := MapSections(dataMem, MappedData, vaddr, false);
    }

    // ----- Searches ---------------------------------------------------------------------------------

    method GotEntryByName(name: string) returns (r: Option<GotEntry>)
      ensures r == FindGot(gots, name)
    {
      var i := 0;
      while i < |gots|
        invariant i <= |gots|
        invariant FindGot(gots, name) == FindGot(gots[i..], name)
      {
        if gots[i].symname == name {
          return Some(gots[i]);
        }
        assert gots[i..][1..] == gots[i + 1..];
        i := i + 1;
      }
      return None;
    }

    method GetSectionMapping(name: string) returns (r: Option<Mapping>)
      ensures r == FindMap(maps, name)
    {
      var i := 0;
      while i < |maps|
        invariant i <= |maps|
        invariant FindMap(maps, name) == FindMap(maps[i..], name)
      {
        if maps[i].name == name {
          return Some(maps[i]);
        }
        assert maps[i..][1..] == maps[i + 1..];
        i := i + 1;
      }
      return None;
    }

    method StubByName(name: string) returns (r: Option<PltEntry>)
      ensures r == FindPlt(plts, name)
    {
      var i := 0;
      while i < |plts|
        invariant i <= |plts|
        invariant FindPlt(plts, name) == FindPlt(plts[i..], name)
      {
        if plts[i].symname == name {
          return Some(plts[i]);
        }
        assert plts[i..][1..] == plts[i + 1..];
        i := i + 1;
      }
      return None;
    }

    // ----- Relocation ----------------------------------------------------------------------------------

    /** The value of S in a PC32 relocation. */
    method SymbolAddress(name: string) returns (r: Option<int>)
      ensures r == Pc32Symbol(View(), name)
    {
      if name != [] && name[0] == '.' {
        var m := GetSectionMapping(name);
        return if m.Some? then Some(m.value.vaddr) else None;
      }
      if name in elf.symbols && elf.symbols[name].ty != SttNoType {
        return Some(textVaddr + elf.symbols[name].value);
      }
      return if name in self then Some(self[name].value + bias) else None;
    }

    /** The switch of apply_relocation. */
    method ComputeField(rel: Reloc, place: nat) returns (f: Option<Field>)
      requires CacheAgrees(cache, gots)
      ensures f == FieldValue(View(), rel, place)
    {
      var got := dataVaddr + pltgotOff;
      match rel.ty {
        case PltOff64 =>
          var stub := StubByName(rel.symname);
          return if stub.Some? then Some(Field(8, stub.value.vaddr - got + rel.addend)) else None;
        case GotPc64 =>
          return Some(Field(8, got - place + rel.addend));
        case Got64 =>
          return if rel.symname in cache then Some(Field(8, cache[rel.symname].gotoff)) else None;
        case GotOff64 =>
          if rel.symname !in elf.symbols {
            return None;
          }
          var value := elf.symbols[rel.symname].value;
          if ".LC" <= rel.symname {
            var rodata := GetSectionMapping(".rodata");
            return if rodata.Some? then Some(Field(8, value + rodata.value.vaddr + rel.addend - got)) else None;
          }
          return Some(Field(8, value + textVaddr + rel.addend - got));
        case Plt32 =>
          var stub := StubByName(rel.symname);
          return if stub.Some? then Some(Field(4, stub.value.vaddr + rel.addend - place)) else None;
        case Pc32 =>
          var symval := SymbolAddress(rel.symname);
          return if symval.Some? then Some(Field(4, symval.value + rel.addend - place)) else None;
        case OtherRel =>
          return None;
      }
    }

    method ApplyRelocation(rel: Reloc) returns (ok: bool)
      requires CacheAgrees(cache, gots)
      requires ApplyStep(View(), rel).Writes? ==> Inside(ApplyStep(View(), rel).p, textMem.Length)
      modifies textMem
      ensures ok == ApplyStep(View(), rel).Writes?
      ensures textMem[..] == if ok then Put(old(textMem[..]), ApplyStep(View(), rel).p) else old(textMem[..])
    {
      var shdrname := FromLastDot(rel.shdrname);
      if shdrname.None? {
        return false;
      }
      var smap := GetSectionMapping(shdrname.value);
      if smap.None? {
        return false;
      }
      var off := smap.value.offset + rel.offset;
      var f := ComputeField(rel, textVaddr + off);
      ApplyStepIs(View(), rel, smap.value, f);
      if f.None? {
        return false;
      }
      var p := Patch(off, FieldBytes(f.value));
      assert ApplyStep(View(), rel) == Writes(p);
      Store(textMem, p);
      return true;
    }

    method RelocateModule() returns (ok: bool)
      requires CacheAgrees(cache, gots)
      requires StepsInside(RelocSteps(View(), elf.relocs), textMem.Length)
      modifies textMem
      ensures ok == Succeeds(RelocSteps(View(), elf.relocs))
      ensures textMem[..] == After(old(textMem[..]), RelocSteps(View(), elf.relocs))
    {
      ok := RelocateAll(RelocSteps(View(), elf.relocs));
    }

    method RelocateAll(ghost steps: seq<Step>) returns (ok: bool)
      requires CacheAgrees(cache, gots) && AreRelocSteps(View(), elf.relocs, steps)
      requires StepsInside(steps, textMem.Length)
      modifies textMem
      ensures ok == Succeeds(steps)
      ensures textMem[..] == After(old(textMem[..]), steps)
    {
      ghost var image := textMem[..];
      var i := 0;
      while i < |elf.relocs|
        invariant i <= |elf.relocs|
        invariant forall k :: 0 <= k < i ==> !steps[k].Fails?
        invariant textMem[..] == Stored(image, steps, i)
      {
        assert RelocStepIs(View(), elf.relocs, steps, i);
        ok := RelocateOne(elf.relocs[i], steps[i]);
        if !ok {
          AfterFailure(image, steps, i);
          return;
        }
        i := i + 1;
      }
      AfterSuccess(image, steps);
      return true;
    }

    /** The body of that loop. */
    method RelocateOne(rel: Reloc, ghost step: Step) returns (ok: bool)
      requires CacheAgrees(cache, gots)
      requires step == RelocStep(View(), rel) && (step.Writes? ==> Inside(step.p, textMem.Length))
      modifies textMem
      ensures ok == !step.Fails?
      ensures textMem[..] == if step.Writes? then Put(old(textMem[..]), step.p) else old(textMem[..])
    {
      var shdrname := FromLastDot(rel.shdrname);
      if shdrname.None? {
        return false;
      }
      if shdrname.value == ".eh_frame" {
        return true;
      }
      ok := ApplyRelocation(rel);
    }

    method PatchPltStubs() returns (ok: bool)
      requires StepsInside(StubSteps(View()), textMem.Length)
      modifies textMem
      ensures ok == Succeeds(StubSteps(View()))
      ensures textMem[..] == After(old(textMem[..]), StubSteps(View()))
    {
      ok := PatchStubs(StubSteps(View()));
    }

    method PatchStubs(ghost steps: seq<Step>) returns (ok: bool)
      requires AreStubSteps(View(), steps) && StepsInside(steps, textMem.Length)
      modifies textMem
      ensures ok == Succeeds(steps)
      ensures textMem[..] == After(old(textMem[..]), steps)
    {
      ghost var image := textMem[..];
      var i := 0;
      while i < |plts|
        invariant i <= |plts|
        invariant forall k :: 0 <= k < i ==> !steps[k].Fails?
        invariant textMem[..] == Stored(image, steps, i)
      {
        ok := PatchStub(i, steps);
        if !ok {
          AfterFailure(image, steps, i);
          return;
        }
        i := i + 1;
      }
      AfterSuccess(image, steps);
      return true;
    }

    /** The body of that loop. */
    method PatchStub(i: nat, ghost steps: seq<Step>) returns (ok: bool)
      requires AreStubSteps(View(), steps) && i < |plts| && StepsInside(steps, textMem.Length)
      modifies textMem
      ensures ok == steps[i].Writes? && (!ok ==> steps[i].Fails?)
      ensures textMem[..] == if ok then Put(old(textMem[..]), steps[i].p) else old(textMem[..])
    {
      assert StubStepIs(View(), steps, i);
      var slot := GotEntryByName(plts[i].symname);
      if slot.None? {
        return false;
      }
      var stub := pltOff + i * STUB_SIZE;
      var gotaddr := dataVaddr + pltgotOff + slot.value.gotoff;
      var pltaddr := textVaddr + stub;
      var gotoff := gotaddr - pltaddr - STUB_SIZE;
      var p := Patch(stub + 2, Bytes4(gotoff % HALF));
      assert steps[i] == Writes(p);
      Store(textMem, p);
      return true;
    }

    method ResolvePltgotEntries() returns (ok: bool)
      requires StepsInside(GotSteps(View()), dataMem.Length)
      modifies dataMem
      ensures ok == Succeeds(GotSteps(View()))
      ensures dataMem[..] == After(old(dataMem[..]), GotSteps(View()))
    {
      ok := ResolveEntries(GotSteps(View()));
    }

    method ResolveEntries(ghost steps: seq<Step>) returns (ok: bool)
      requires AreGotSteps(View(), steps) && StepsInside(steps, dataMem.Length)
      modifies dataMem
      ensures ok == Succeeds(steps)
      ensures dataMem[..] == After(old(dataMem[..]), steps)
    {
      ghost var image := dataMem[..];
      var i := 0;
      while i < |gots|
        invariant i <= |gots|
        invariant forall k :: 0 <= k < i ==> !steps[k].Fails?
        invariant dataMem[..] == Stored(image, steps, i)
      {
        ok := ResolveEntry(i, steps);
        if !ok {
          AfterFailure(image, steps, i);
          return;
        }
        i := i + 1;
      }
      AfterSuccess(image, steps);
      return true;
    }

    /** The body of that loop. */
    method ResolveEntry(i: nat, ghost steps: seq<Step>) returns (ok: bool)
      requires AreGotSteps(View(), steps) && i < |gots| && StepsInside(steps, dataMem.Length)
      modifies dataMem
      ensures ok == steps[i].Writes? && (!ok ==> steps[i].Fails?)
      ensures dataMem[..] == if ok then Put(old(dataMem[..]), steps[i].p) else old(dataMem[..])
    {
      assert GotStepAt(View(), steps, i);
      var slot := gots[i];
      var name := slot.symname;
      var p: Patch;
      if name in elf.symbols && (elf.symbols[name].ty == SttFunc || elf.symbols[name].ty == SttObject) {
        var word := pltgotOff + slot.gotoff;
        p := Patch(8 * word, Bytes8((elf.symbols[name].value + textVaddr) % WORD));
      } else if name !in self {
        return false;
      } else {
        p := Patch(pltgotOff + slot.gotoff, Bytes8((self[name].value + bias) % WORD));
      }
      assert steps[i] == Writes(p);
      Store(dataMem, p);
      return true;
    }

    // ----- The whole module ------------------------------------------------------------------------------

    /** shiva_module_loader, up to the transfer of control. It needs what its stores need: data sections
        that fit, relocations and GOT stores that stay inside the segments. */
    method ShivaModuleLoader(textAt: nat, dataAt: nat) returns (ok: bool)
      requires textSize == dataSize == 0 && maps == [] && plts == [] && dataVaddr == 0 && dataMem.Length == 0
      requires DataFits(elf)
      requires StoresInside(elf, EnvOf(elf, self, bias, textAt, DataAddress(elf, dataAt)))
      modifies this, dataMem
      ensures ok == Loads(elf, EnvOf(elf, self, bias, textAt, DataAddress(elf, dataAt)))
      ensures ok ==> View() == EnvOf(elf, self, bias, textAt, DataAddress(elf, dataAt))
      ensures ok ==> Image(textMem[..], dataMem[..]) == LoadedImage(elf, View())
    {
      ok := Prepare(textAt, dataAt);
      if ok {
        StubStepsInside(elf, View());
        ok := RunPasses();
      }
    }

    /** Sizes and images. */
    method Prepare(textAt: nat, dataAt: nat) returns (ok: bool)
      requires textSize == dataSize == 0 && maps == [] && plts == [] && dataVaddr == 0 && dataMem.Length == 0
      requires DataFits(elf)
      modifies this
      ensures ok == (DataReadable(elf) && Readable(elf.file, elf.sections, Mapped))
      ensures ok ==> View() == EnvOf(elf, self, bias, textAt, DataAddress(elf, dataAt)) && CacheAgrees(cache, gots)
      ensures ok ==> textMem[..] == TextImage(elf) && dataMem[..] == DataImage(elf)
      ensures ok ==> fresh(textMem) && (dataMem == old(dataMem) || fresh(dataMem)) && textMem != dataMem
    {
      ok := PrepareText(textAt);
      if ok {
        ok := CreateDataImage(dataAt);
      }
    }

    /** Sizes and the text image. */
    method PrepareText(textAt: nat) returns (ok: bool)
      requires textSize == dataSize == 0 && maps == [] && plts == []
      modifies this`textSize, this`dataSize, this`pltOff, this`pltSize, this`pltCount, this`pltgotOff, this`pltgotSize,
               this`gots, this`cache, this`textMem, this`textVaddr, this`maps, this`plts
      ensures ok == (DataSize(elf).Some? && Readable(elf.file, elf.sections, Mapped))
      ensures ok ==> DataSize(elf) == Some(dataSize) && pltgotOff == GotOffset(elf)
      ensures ok ==> gots == GotList(elf.relocs) && CacheAgrees(cache, gots)
      ensures ok ==> textVaddr == textAt && fresh(textMem) && textMem[..] == TextImage(elf)
      ensures ok ==> pltOff == SumSizes(elf.sections, Mapped) && maps == Maps(elf.sections, Mapped, textAt, true)
      ensures ok ==> plts == PltList(elf.relocs, textAt, pltOff)
    {
      CalculateTextSize();
      ok := CalculateDataSize();
      if ok {
        ok := CreateTextImage(textAt);
      }
    }

    /** The three passes. */
    method RunPasses() returns (ok: bool)
      requires CacheAgrees(cache, gots) && textMem != dataMem
      requires StepsInside(RelocSteps(View(), elf.relocs), textMem.Length) &&
               StepsInside(StubSteps(View()), textMem.Length)
      requires StepsInside(GotSteps(View()), dataMem.Length)
      modifies textMem, dataMem
      ensures ok == Links(View(), elf.relocs, old(Image(textMem[..], dataMem[..])))
      ensures ok ==> Image(textMem[..], dataMem[..]) == Linked(View(), elf.relocs, old(Image(textMem[..], dataMem[..])))
    {
      ok := RelocateModule();
      if !ok {
        return;
      }
      ok := PatchPltStubs();
      if !ok {
        return;
      }
      ok := ResolvePltgotEntries();
    }
  }

  ghost predicate StubStepIs(env: Env, steps: seq<Step>, k: nat) {
    k < |steps| == |env.plts| && steps[k] == StubStep(env, k)
  }

  ghost predicate AreStubSteps(env: Env, steps: seq<Step>) {
    && |steps| == |env.plts|
    && forall k: nat {:trigger StubStepIs(env, steps, k)} :: k < |steps| ==> StubStepIs(env, steps, k)
  }

  ghost predicate RelocStepIs(env: Env, relocs: seq<Reloc>, steps: seq<Step>, k: nat) {
    k < |steps| == |relocs| && steps[k] == RelocStep(env, relocs[k])
  }

  ghost predicate AreRelocSteps(env: Env, relocs: seq<Reloc>, steps: seq<Step>) {
    && |steps| == |relocs|
    && forall k: nat {:trigger RelocStepIs(env, relocs, steps, k)} :: k < |steps| ==> RelocStepIs(env, relocs, steps, k)
  }

  ghost predicate GotStepAt(env: Env, steps: seq<Step>, k: nat) {
    k < |steps| == |env.gots| && steps[k] == GotStep(env, env.gots[k])
  }

  ghost predicate AreGotSteps(env: Env, steps: seq<Step>) {
    && |steps| == |env.gots|
    && forall k: nat {:trigger GotStepAt(env, steps, k)} :: k < |steps| ==> GotStepAt(env, steps, k)
  }

  lemma ApplyStepIs(env: Env, r: Reloc, m: Mapping, f: Option<Field>)
    requires SectionOf(env, r) == Some(m) && f == FieldValue(env, r, env.textVaddr + (m.offset + r.offset))
    ensures ApplyStep(env, r) == StoreStep(m.offset + r.offset, f)
  {
    assert env.textVaddr + m.offset + r.offset == env.textVaddr + (m.offset + r.offset);
  }

  // ----- What loading needs and gives ------------------------------------------------------------------

  predicate DataFits(elf: Elf) {
    DataSize(elf).Some? && DataSize(elf).value > 0 ==>
      SumSizes(elf.sections, MappedData) <= PageAlign(DataSize(elf).value)
  }

  /** The data segment's address: none is mapped when nothing is to go there. */
  function DataAddress(elf: Elf, dataAt: nat): nat { if DataSize(elf) == Some(0) then 0 else dataAt }

  function DataLength(elf: Elf): nat {
    if DataSize(elf).None? || DataSize(elf).value == 0 then 0 else PageAlign(DataSize(elf).value)
  }

  ghost predicate StoresInside(elf: Elf, env: Env) {
    StepsInside(RelocSteps(env, elf.relocs), TextLength(elf)) && StepsInside(GotSteps(env), DataLength(elf))
  }

  ghost predicate DataReadable(elf: Elf) {
    DataSize(elf).Some? && (DataSize(elf).value > 0 ==> Readable(elf.file, elf.sections, MappedData))
  }

  /** Stubs are patched inside the text segment. */
  lemma StubStepsInside(elf: Elf, env: Env)
    requires env.pltOff == SumSizes(elf.sections, Mapped) && |env.plts| == CountPlt(elf.relocs)
    ensures StepsInside(StubSteps(env), TextLength(elf))
  {
    TextFits(elf);
  }

  /** create_data_image's result. */
  ghost function DataImage(elf: Elf): (r: seq<byte>)
    requires DataFits(elf) && DataReadable(elf)
    ensures |r| == DataLength(elf)
  {
    if DataSize(elf).value == 0 then [] else SegmentImage(elf.file, elf.sections, MappedData, DataLength(elf))
  }

  /** Exactly when a module loads. */
  ghost predicate Loads(elf: Elf, env: Env)
    requires DataFits(elf) && StoresInside(elf, env)
  {
    && DataReadable(elf) && Readable(elf.file, elf.sections, Mapped)
    && Links(env, elf.relocs, Image(TextImage(elf), DataImage(elf)))
  }

  ghost function LoadedImage(elf: Elf, env: Env): Image
    requires DataFits(elf) && StoresInside(elf, env) && Loads(elf, env)
  {
    Linked(env, elf.relocs, Image(TextImage(elf), DataImage(elf)))
  }

  /** The environment is the one the linker builds for the object. */
  ghost predicate Built(elf: Elf, env: Env) {
    env.elf == elf && Wired(env)
  }

  lemma SnocAssociates<T>(a: seq<T>, b: seq<T>, x: T)
    ensures (a + b) + [x] == a + (b + [x])
  {
  }

  lemma CacheSnoc(cache: map<string, GotEntry>, list: seq<GotEntry>, entry: GotEntry)
    requires CacheAgrees(cache, list) && entry.symname !in cache
    ensures CacheAgrees(cache[entry.symname := entry], list + [entry])
  {
    forall name
      ensures FindGot(list + [entry], name) ==
              (if name in cache[entry.symname := entry] then Some(cache[entry.symname := entry][name]) else None)
    {
      FindGotSnoc(list, entry, name);
    }
  }
}
