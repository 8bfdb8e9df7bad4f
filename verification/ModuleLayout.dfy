/** What the module linker computes about a relocatable object before it relocates it: segment
    sizes, section placement, PLT stubs and GOT slots (shiva_module.c).

    The object is given as libelfmaster delivers it: its bytes, and sequences of sections,
    relocations and symbols. */
module ModuleLayout {
  import opened Bytes
  import opened Pages
  import opened Patching

  /** `other` stands for any flag besides SHF_ALLOC and SHF_WRITE. */
  datatype Section = Section(name: string, alloc: bool, write: bool, other: bool, offset: nat, size: nat)

  datatype RelType = Plt32 | PltOff64 | GotPc64 | Got64 | GotOff64 | Pc32 | OtherRel

  /** `shdrname` is the name of the relocation's own section, `target` the index of the section it is
      to be applied to, and `against` that of the section it refers to, if it refers to a section. */
  datatype Reloc = Reloc(shdrname: string, offset: nat, ty: RelType, symname: string, addend: int, target: nat,
                         against: Option<nat>)

  datatype SymType = SttFunc | SttObject | SttNoType | SttOther

  /** Where a symbol is defined: the value of one in a section counts from the start of the section. */
  datatype Home = Undefined | Absolute | InSection(index: nat)

  datatype Symbol = Symbol(value: nat, ty: SymType, home: Home)

  datatype Elf = Elf(file: seq<byte>, sections: seq<Section>, relocs: seq<Reloc>, symbols: map<string, Symbol>)

  datatype Mapping = Mapping(name: string, vaddr: nat, offset: nat, size: nat, text: bool)

  datatype GotEntry = GotEntry(symname: string, gotoff: nat)

  datatype PltEntry = PltEntry(symname: string, vaddr: nat, offset: nat)

  const STUB: seq<byte> := [0xff, 0x25, 0, 0, 0, 0]
  const STUB_SIZE: nat := 6

  // ----- Sizes -----------------------------------------------------------------------

  predicate InText(s: Section) { s.alloc && !s.write }

  predicate NeedsPlt(r: Reloc) { r.ty == Plt32 || r.ty == PltOff64 }

  predicate NeedsGot(r: Reloc) { r.ty == Plt32 || r.ty == Got64 || r.ty == PltOff64 }

  /** The sizes of the selected ones of the first n sections. */
  function SumUpTo(sections: seq<Section>, counts: Section -> bool, n: nat): nat
    requires n <= |sections|
  {
    if n == 0 then 0
    else SumUpTo(sections, counts, n - 1) + (if counts(sections[n - 1]) then sections[n - 1].size else 0)
  }

  function SumSizes(sections: seq<Section>, counts: Section -> bool): nat {
    SumUpTo(sections, counts, |sections|)
  }

  function PltUpTo(relocs: seq<Reloc>, n: nat): nat
    requires n <= |relocs|
  {
    if n == 0 then 0 else PltUpTo(relocs, n - 1) + (if NeedsPlt(relocs[n - 1]) then 1 else 0)
  }

  function CountPlt(relocs: seq<Reloc>): nat { PltUpTo(relocs, |relocs|) }

  /** calculate_text_size: every allocated read-only section, and a stub per PLT relocation. */
  function TextSize(elf: Elf): nat {
    SumSizes(elf.sections, InText) + STUB_SIZE * CountPlt(elf.relocs)
  }

  /** The sections the data size counts: flags exactly SHF_ALLOC|SHF_WRITE. */
  predicate PlainData(s: Section) { s.alloc && s.write && !s.other }

  function GotOffset(elf: Elf): nat { SumSizes(elf.sections, PlainData) }

  function FindSection(sections: seq<Section>, name: string): (r: Option<Section>)
    ensures r.Some? ==> r.value in sections && r.value.name == name
  {
    if sections == [] then None
    else if sections[0].name == name then Some(sections[0])
    else FindSection(sections[1..], name)
  }

  // ----- Sections in the text image ------------------------------------------------------

  predicate Contains(s: string, sub: string) {
    exists i :: 0 <= i <= |s| && sub <= s[i..]
  }

  /** What create_text_image maps. */
  predicate Mapped(s: Section) {
    InText(s) && s.size != 0 && s.name != ".eh_frame" && !Contains(s.name, ".note")
  }

  /** The mappings of those of the first n sections that `keep` selects, one after the other. */
  function MapsUpTo(sections: seq<Section>, keep: Section -> bool, base: nat, text: bool, n: nat): (r: seq<Mapping>)
    requires n <= |sections|
  {
    if n == 0 then []
    else if !keep(sections[n - 1]) then MapsUpTo(sections, keep, base, text, n - 1)
    else
      var off := SumUpTo(sections, keep, n - 1);
      MapsUpTo(sections, keep, base, text, n - 1) +
        [Mapping(sections[n - 1].name, base + off, off, sections[n - 1].size, text)]
  }

  function Maps(sections: seq<Section>, keep: Section -> bool, base: nat, text: bool): (r: seq<Mapping>) {
    MapsUpTo(sections, keep, base, text, |sections|)
  }

  /** Where the last of some mappings ends. */
  function EndOf(m: seq<Mapping>): nat {
    if m == [] then 0 else m[|m| - 1].offset + m[|m| - 1].size
  }

  /** Mapping k lies in the segment at `base`, right after the mappings before it. */
  ghost predicate Follows(m: seq<Mapping>, k: nat, base: nat, text: bool) {
    k < |m| ==> m[k].vaddr == base + m[k].offset && m[k].offset == EndOf(m[..k]) && m[k].text == text
  }

  /** Mappings are contiguous and in order: the first starts at 0, each of the others where the
      one before ends, and the last ends at the total. */
  lemma {:induction false} MapsContiguous(sections: seq<Section>, keep: Section -> bool, base: nat, text: bool, n: nat)
    requires n <= |sections|
    ensures forall k: nat {:trigger Follows(MapsUpTo(sections, keep, base, text, n), k, base, text)} ::
              Follows(MapsUpTo(sections, keep, base, text, n), k, base, text)
    ensures EndOf(MapsUpTo(sections, keep, base, text, n)) == SumUpTo(sections, keep, n)
  {
    if n > 0 {
      var before, m := MapsUpTo(sections, keep, base, text, n - 1), MapsUpTo(sections, keep, base, text, n);
      MapsContiguous(sections, keep, base, text, n - 1);
      forall k: nat
        ensures Follows(m, k, base, text)
      {
        assert Follows(before, k, base, text);
        assert k <= |before| ==> m[..k] == before[..k];
        assert before[..|before|] == before;
      }
    }
  }

  /** So every mapping ends where or before each later one starts, and all lie below the total. */
  lemma MapsDisjoint(sections: seq<Section>, keep: Section -> bool, base: nat, text: bool, j: nat, k: nat)
    requires j < k <= |Maps(sections, keep, base, text)|
    ensures EndOf(Maps(sections, keep, base, text)[..j + 1]) <= EndOf(Maps(sections, keep, base, text)[..k])
            <= SumSizes(sections, keep)
    decreases |Maps(sections, keep, base, text)| - j
  {
    var m := Maps(sections, keep, base, text);
    MapsContiguous(sections, keep, base, text, |sections|);
    assert m[..|m|] == m;
    if j + 1 < k {
      MapsDisjoint(sections, keep, base, text, j + 1, k);
      assert Follows(m, j + 1, base, text);
    } else if k < |m| {
      MapsDisjoint(sections, keep, base, text, k, k + 1);
      assert Follows(m, k, base, text);
    }
  }

  lemma MapInside(sections: seq<Section>, keep: Section -> bool, base: nat, text: bool, x: Mapping)
    requires x in Maps(sections, keep, base, text)
    ensures x.offset + x.size <= SumSizes(sections, keep) && x.vaddr == base + x.offset && x.text == text
  {
    var m := Maps(sections, keep, base, text);
    var k :| 0 <= k < |m| && m[k] == x;
    MapsContiguous(sections, keep, base, text, |sections|);
    assert Follows(m, k, base, text);
    MapsDisjoint(sections, keep, base, text, k, |m|);
  }

  lemma {:induction false} SumMonotone(sections: seq<Section>, a: Section -> bool, b: Section -> bool, n: nat)
    requires n <= |sections| && forall s :: a(s) ==> b(s)
    ensures SumUpTo(sections, a, n) <= SumUpTo(sections, b, n)
  {
    if n > 0 { SumMonotone(sections, a, b, n - 1); }
  }

  lemma {:induction false} SumPrefix(sections: seq<Section>, keep: Section -> bool, i: nat, n: nat)
    requires i <= n <= |sections|
    ensures SumUpTo(sections, keep, i) <= SumUpTo(sections, keep, n)
  {
    if i < n { SumPrefix(sections, keep, i, n - 1); }
  }

  /** All PLT stubs lie after the mapped sections and inside the size computed beforehand, although
      `.eh_frame` and note sections were counted and then not mapped. */
  lemma TextFits(elf: Elf)
    ensures SumSizes(elf.sections, Mapped) + STUB_SIZE * CountPlt(elf.relocs) <= TextSize(elf)
  {
    SumMonotone(elf.sections, Mapped, InText, |elf.sections|);
  }

  // ----- Sections in the data image ---------------------------------------------------------

  /** What create_data_image maps. */
  predicate MappedData(s: Section) { s.write && s.size != 0 }

  /** The GOT starts after the data sections exactly when every non-empty writable section is
      plain data. */
  lemma GotAfterData(sections: seq<Section>)
    ensures SumSizes(sections, MappedData) >= SumSizes(sections, PlainData)
    ensures SumSizes(sections, MappedData) <= SumSizes(sections, PlainData) <==>
            forall k :: 0 <= k < |sections| && MappedData(sections[k]) ==> PlainData(sections[k])
  {
    GotAfterSome(sections, |sections|);
  }

  lemma {:induction false} GotAfterSome(sections: seq<Section>, n: nat)
    requires n <= |sections|
    ensures SumUpTo(sections, MappedData, n) >= SumUpTo(sections, PlainData, n)
    ensures SumUpTo(sections, MappedData, n) <= SumUpTo(sections, PlainData, n) <==>
            forall k :: 0 <= k < n && MappedData(sections[k]) ==> PlainData(sections[k])
  {
    if n > 0 { GotAfterSome(sections, n - 1); }
  }

  // ----- GOT slots ---------------------------------------------------------------------------

  /** calculate_data_size's loop: a slot per new symbol, 8 bytes each. */
  function GotUpTo(relocs: seq<Reloc>, n: nat): (r: seq<GotEntry>)
    requires n <= |relocs|
  {
    if n == 0 then []
    else
      var list, r := GotUpTo(relocs, n - 1), relocs[n - 1];
      if NeedsGot(r) && FindGot(list, r.symname).None? then list + [GotEntry(r.symname, 8 * |list|)] else list
  }

  function GotList(relocs: seq<Reloc>): (r: seq<GotEntry>) { GotUpTo(relocs, |relocs|) }

  /** got_entry_by_name: the first entry with the name. */
  function FindGot(list: seq<GotEntry>, name: string): (r: Option<GotEntry>)
    ensures r.Some? ==> r.value in list && r.value.symname == name
  {
    if list == [] then None
    else if list[0].symname == name then Some(list[0])
    else FindGot(list[1..], name)
  }

  lemma {:induction false} FindGotNone(list: seq<GotEntry>, name: string)
    requires FindGot(list, name).None?
    ensures forall k :: 0 <= k < |list| ==> list[k].symname != name
  {
    if list != [] {
      FindGotNone(list[1..], name);
    }
  }

  /** Names are unique and offsets are 8 times the position. */
  ghost predicate GotWf(list: seq<GotEntry>) {
    && (forall k :: 0 <= k < |list| ==> list[k].gotoff == 8 * k)
    && GotNamesUnique(list)
  }

  ghost predicate GotNamesUnique(list: seq<GotEntry>) {
    forall j, k :: 0 <= j < k < |list| ==> list[j].symname != list[k].symname
  }

  lemma {:induction false} GotListWf(relocs: seq<Reloc>, n: nat)
    requires n <= |relocs|
    ensures GotWf(GotUpTo(relocs, n))
  {
    if n > 0 {
      var list, r := GotUpTo(relocs, n - 1), relocs[n - 1];
      GotListWf(relocs, n - 1);
      if NeedsGot(r) && FindGot(list, r.symname).None? {
        FindGotNone(list, r.symname);
      }
    }
  }

  lemma {:induction false} FindGotAt(list: seq<GotEntry>, k: nat)
    requires GotNamesUnique(list) && k < |list|
    ensures FindGot(list, list[k].symname) == Some(list[k])
  {
    if k > 0 {
      assert list[1..][k - 1] == list[k];
      FindGotAt(list[1..], k - 1);
    }
  }

  /** A symbol has a slot exactly when some relocation needs one for it. */
  lemma {:induction false} GotListComplete(relocs: seq<Reloc>, n: nat, name: string)
    requires n <= |relocs|
    ensures FindGot(GotUpTo(relocs, n), name).Some? <==>
            exists i :: 0 <= i < n && relocs[i].ty in {Plt32, Got64, PltOff64} && relocs[i].symname == name
  {
    if n > 0 {
      var list := GotUpTo(relocs, n - 1);
      GotListComplete(relocs, n - 1, name);
      FindGotSnoc(list, GotEntry(relocs[n - 1].symname, 8 * |list|), name);
    }
  }

  lemma {:induction false} FindGotSnoc(list: seq<GotEntry>, e: GotEntry, name: string)
    ensures FindGot(list + [e], name) ==
            if FindGot(list, name).Some? then FindGot(list, name) else if e.symname == name then Some(e) else None
  {
    if list == [] {
      assert ([] + [e])[1..] == [];
    } else {
      FindGotSnoc(list[1..], e, name);
      assert (list + [e])[1..] == list[1..] + [e];
    }
  }

  // ----- PLT stubs ------------------------------------------------------------------------------

  function StubEntry(name: string, textVaddr: nat, pltOff: nat, k: nat): PltEntry {
    PltEntry(name, textVaddr + pltOff + STUB_SIZE * k, pltOff + STUB_SIZE * k)
  }

  /** create_text_image's second loop: a stub per PLT relocation, in order. */
  function StubsUpTo(relocs: seq<Reloc>, textVaddr: nat, pltOff: nat, n: nat): (r: seq<PltEntry>)
    requires n <= |relocs|
    ensures |r| == PltUpTo(relocs, n)
  {
    if n == 0 then []
    else
      var list := StubsUpTo(relocs, textVaddr, pltOff, n - 1);
      if NeedsPlt(relocs[n - 1]) then list + [StubEntry(relocs[n - 1].symname, textVaddr, pltOff, |list|)] else list
  }

  function PltList(relocs: seq<Reloc>, textVaddr: nat, pltOff: nat): (r: seq<PltEntry>)
    ensures |r| == CountPlt(relocs)
  {
    StubsUpTo(relocs, textVaddr, pltOff, |relocs|)
  }

  lemma {:induction false} PltPrefix(relocs: seq<Reloc>, i: nat, n: nat)
    requires i <= n <= |relocs|
    ensures PltUpTo(relocs, i) <= PltUpTo(relocs, n)
  {
    if i < n { PltPrefix(relocs, i, n - 1); }
  }

  /** Stub k is the k-th of the row, for the symbol of a PLT relocation. */
  lemma {:induction false} StubsAt(relocs: seq<Reloc>, textVaddr: nat, pltOff: nat, n: nat, k: nat)
    requires n <= |relocs| && k < PltUpTo(relocs, n)
    ensures var e := StubsUpTo(relocs, textVaddr, pltOff, n)[k];
            && e == StubEntry(e.symname, textVaddr, pltOff, k)
            && exists i :: 0 <= i < n && relocs[i].ty in {Plt32, PltOff64} && relocs[i].symname == e.symname
  {
    if k < PltUpTo(relocs, n - 1) {
      StubsAt(relocs, textVaddr, pltOff, n - 1, k);
    }
  }

  /** Every PLT relocation's symbol has a stub. */
  lemma {:induction false} StubsComplete(relocs: seq<Reloc>, textVaddr: nat, pltOff: nat, n: nat, i: nat)
    requires i < n <= |relocs| && relocs[i].ty in {Plt32, PltOff64}
    ensures FindPlt(StubsUpTo(relocs, textVaddr, pltOff, n), relocs[i].symname).Some?
  {
    var list := StubsUpTo(relocs, textVaddr, pltOff, n - 1);
    if i < n - 1 {
      StubsComplete(relocs, textVaddr, pltOff, n - 1, i);
    }
    FindPltSnoc(list, StubEntry(relocs[n - 1].symname, textVaddr, pltOff, |list|), relocs[i].symname);
  }

  lemma {:induction false} FindPltSnoc(list: seq<PltEntry>, e: PltEntry, name: string)
    ensures FindPlt(list + [e], name).Some? <==> FindPlt(list, name).Some? || e.symname == name
  {
    if list == [] {
      assert ([] + [e])[1..] == [];
    } else {
      FindPltSnoc(list[1..], e, name);
      assert (list + [e])[1..] == list[1..] + [e];
    }
  }

  /** The first stub for a symbol. */
  function FindPlt(list: seq<PltEntry>, name: string): (r: Option<PltEntry>)
    ensures r.Some? ==> r.value in list && r.value.symname == name
  {
    if list == [] then None
    else if list[0].symname == name then Some(list[0])
    else FindPlt(list[1..], name)
  }

  /** Every stub's symbol has a GOT slot, so the lookup in patch_plt_stubs cannot fail. */
  lemma StubHasSlot(relocs: seq<Reloc>, textVaddr: nat, pltOff: nat, k: nat)
    requires k < CountPlt(relocs)
    ensures FindGot(GotList(relocs), PltList(relocs, textVaddr, pltOff)[k].symname).Some?
  {
    StubsAt(relocs, textVaddr, pltOff, |relocs|, k);
    GotListComplete(relocs, |relocs|, PltList(relocs, textVaddr, pltOff)[k].symname);
  }
}
