/** What the linked module does: the fields of its final image, and where a call through a PLT stub
    ends up (shiva_module.c). */
module ModuleRun {
  import opened Bytes
  import opened Modular
  import opened Patching
  import opened ModuleLayout
  import opened ModuleReloc
  import opened ModulePsabi

  datatype Image = Image(text: seq<byte>, data: seq<byte>)

  /** The mapped image holds an unpatched stub for every PLT entry. */
  ghost predicate StubsPresent(env: Env, text: seq<byte>) {
    forall k :: 0 <= k < |env.plts| ==> Holds(text, Patch(env.pltOff + STUB_SIZE * k, STUB))
  }

  /** Every relocation that is applied lies in its section, which is in the text segment before the
      stubs, and no two overlap. */
  ghost predicate FieldsPlaced(env: Env, relocs: seq<Reloc>) {
    && StepsApart(RelocSteps(env, relocs))
    && forall i :: 0 <= i < |relocs| ==> FieldBeforeStubs(env, relocs[i])
  }

  ghost predicate FieldBeforeStubs(env: Env, r: Reloc) {
    RelocStep(env, r).Writes? ==>
      && SectionOf(env, r).value.text
      && RelocStep(env, r).p.off + |RelocStep(env, r).p.bytes| <= SectionOf(env, r).value.offset +
        SectionOf(env, r).value.size
  }

  /** Everything the linker's stores rely on: the image sizes suffice and every pass succeeds. */
  ghost predicate Links(env: Env, relocs: seq<Reloc>, before: Image) {
    && StepsInside(RelocSteps(env, relocs), |before.text|) && Succeeds(RelocSteps(env, relocs))
    && StepsInside(StubSteps(env), |before.text|) && Succeeds(StubSteps(env))
    && StepsInside(GotSteps(env), |before.data|) && Succeeds(GotSteps(env))
  }

  /** The image after relocate_module, patch_plt_stubs and resolve_pltgot_entries. */
  ghost function Linked(env: Env, relocs: seq<Reloc>, before: Image): (r: Image)
    requires Links(env, relocs, before)
    ensures |r.text| == |before.text| && |r.data| == |before.data|
  {
    Image(After(After(before.text, RelocSteps(env, relocs)), StubSteps(env)), After(before.data, GotSteps(env)))
  }

  // ----- What the processor reads ----------------------------------------------------------

  function Load(image: seq<byte>, base: nat, addr: int, n: nat): (r: Option<seq<byte>>)
    ensures r.Some? ==> |r.value| == n
  {
    if base <= addr && addr + n <= base + |image| then Some(image[addr - base..addr - base + n]) else None
  }

  /** Where a call whose 32-bit field is at `place` goes. */
  function CallGoes(im: Image, env: Env, place: int): Option<int> {
    match Load(im.text, env.textVaddr, place, 4)
    case Some(b) => Some(place + 4 + Signed(Word4(b), 32))
    case None => None
  }

  /** Where the instruction at `addr` goes, if it is `jmp *disp(%rip)` through the data segment. */
  function StubGoes(im: Image, env: Env, addr: int): Option<nat> {
    match Load(im.text, env.textVaddr, addr, STUB_SIZE)
    case None => None
    case Some(b) =>
      if b[0] != 0xff || b[1] != 0x25 then None
      else
        match Load(im.data, env.dataVaddr, addr + STUB_SIZE + Signed(Word4(b[2..]), 32), 8)
        case Some(w) => Some(Word8(w))
        case None => None
  }

  // ----- The final image --------------------------------------------------------------------

  lemma FieldsEndBeforeStubs(env: Env, relocs: seq<Reloc>, i: nat)
    requires Layout(env) && FieldsPlaced(env, relocs) && i < |relocs| && RelocStep(env, relocs[i]).Writes?
    ensures RelocStep(env, relocs[i]).p.off + |RelocStep(env, relocs[i]).p.bytes| <= env.pltOff
  {
    assert FieldBeforeStubs(env, relocs[i]);
    assert MapBelow(env, SectionOf(env, relocs[i]).value);
  }

  /** What the layout guarantees: text mappings end before the stubs, stubs and slots are where
      their position says, and every stub has a slot. */
  ghost predicate Layout(env: Env) {
    && (forall m :: m in env.maps ==> MapBelow(env, m))
    && (forall k :: 0 <= k < |env.plts| ==> StubAt(env, k))
    && GotWf(env.gots)
  }

  ghost predicate MapBelow(env: Env, m: Mapping) {
    m.text ==> m.offset + m.size <= env.pltOff && m.vaddr == env.textVaddr + m.offset
  }

  ghost predicate StubAt(env: Env, k: nat) {
    k < |env.plts| ==>
      && env.plts[k].vaddr == env.textVaddr + env.pltOff + STUB_SIZE * k
      && FindGot(env.gots, env.plts[k].symname).Some?
  }

  lemma EnvHasLayout(elf: Elf, self: map<string, Symbol>, bias: nat, textVaddr: nat, dataVaddr: nat)
    ensures Layout(EnvOf(elf, self, bias, textVaddr, dataVaddr))
  {
    var env := EnvOf(elf, self, bias, textVaddr, dataVaddr);
    GotListWf(elf.relocs, |elf.relocs|);
    forall k | 0 <= k < |env.plts|
      ensures StubAt(env, k)
    {
      StubHasSlot(elf.relocs, textVaddr, env.pltOff, k);
      StubsAt(elf.relocs, textVaddr, env.pltOff, |elf.relocs|, k);
    }
    forall m | m in env.maps
      ensures MapBelow(env, m)
    {
      if m in Maps(elf.sections, Mapped, textVaddr, true) {
        MapInside(elf.sections, Mapped, textVaddr, true, m);
      } else {
        MapInside(elf.sections, MappedData, dataVaddr, false, m);
      }
    }
  }

  /** Stubs are patched in their displacement only. */
  lemma StubStepAt(env: Env, k: nat)
    requires Layout(env) && k < |env.plts|
    ensures StubSteps(env)[k] == Writes(Patch(env.pltOff + STUB_SIZE * k + 2, Bytes4(StubDisplacement(env, k) % HALF)))
  {
    assert StubAt(env, k);
  }

  /** A relocated field is still there when the module is finished. */
  lemma FieldSurvives(env: Env, relocs: seq<Reloc>, before: Image, i: nat)
    requires Layout(env) && FieldsPlaced(env, relocs) && Links(env, relocs, before)
    requires i < |relocs| && RelocStep(env, relocs[i]).Writes?
    ensures Holds(Linked(env, relocs, before).text, RelocStep(env, relocs[i]).p)
  {
    var steps := RelocSteps(env, relocs);
    AfterSuccess(before.text, steps);
    StepHolds(before.text, steps, |steps|, i);
    FieldsEndBeforeStubs(env, relocs, i);
    forall k | 0 <= k < |env.plts|
      ensures StubSteps(env)[k].Writes? && Apart(steps[i].p, StubSteps(env)[k].p)
    {
      StubStepAt(env, k);
    }
    AfterSuccess(After(before.text, steps), StubSteps(env));
    HoldsThrough(After(before.text, steps), StubSteps(env), |StubSteps(env)|, steps[i].p);
  }

  lemma FieldApplied(env: Env, relocs: seq<Reloc>, before: Image, i: nat)
    requires Layout(env) && FieldsPlaced(env, relocs) && Links(env, relocs, before)
    requires i < |relocs| && Applied(relocs[i])
    ensures RelocStep(env, relocs[i]).Writes? && FieldBeforeStubs(env, relocs[i])
    ensures Holds(Linked(env, relocs, before).text, RelocStep(env, relocs[i]).p)
  {
    assert !RelocSteps(env, relocs)[i].Fails?;
    FieldSurvives(env, relocs, before, i);
  }

  /** The text holds, at the relocation's place, bytes that give the target to the code around them. */
  ghost predicate FieldGives(env: Env, r: Reloc, text: seq<byte>, target: Option<int>) {
    && Place(env, r).Some?
    && var field := Load(text, env.textVaddr, Place(env, r).value, WidthOf(r.ty));
       field.Some? && Denotes(env, r, field.value, target)
  }

  /** In the finished module the field of a relocation whose name leads to its own section gives the address
      that the linker found. */
  lemma FieldsAim(env: Env, relocs: seq<Reloc>, before: Image, i: nat)
    requires Layout(env) && FieldsPlaced(env, relocs) && Links(env, relocs, before) && Wired(env)
    requires i < |relocs| && Applied(relocs[i]) && Led(env.elf, relocs[i])
    ensures FieldGives(env, relocs[i], Linked(env, relocs, before).text, Aim(env, relocs[i]))
  {
    FieldApplied(env, relocs, before, i);
    StepAims(env, relocs[i]);
    LedPlace(env, relocs[i]);
    HeldField(env, relocs[i], Linked(env, relocs, before).text, RelocStep(env, relocs[i]).p);
  }

  lemma HeldField(env: Env, r: Reloc, text: seq<byte>, p: Patch)
    requires Place(env, r) == Some(env.textVaddr + p.off) && Aim(env, r).Some?
    requires Holds(text, p) && Denotes(env, r, p.bytes, Aim(env, r))
    ensures FieldGives(env, r, text, Aim(env, r))
  {
  }

  /** That is the psABI's address, for targets in the field's reach, if and only if the relocation is homed. */
  lemma FieldsDenote(env: Env, relocs: seq<Reloc>, before: Image, i: nat)
    requires Layout(env) && FieldsPlaced(env, relocs) && Links(env, relocs, before) && Wired(env)
    requires i < |relocs| && Applied(relocs[i]) && Led(env.elf, relocs[i])
    requires SegmentsApart(env) && WellFormed(env.elf, relocs[i])
    ensures Homed(env, relocs[i]) ==>
              FieldGives(env, relocs[i], Linked(env, relocs, before).text, Psabi(env, relocs[i]))
    ensures AddressesInReach(env, relocs[i]) && !Homed(env, relocs[i]) ==>
              !FieldGives(env, relocs[i], Linked(env, relocs, before).text, Psabi(env, relocs[i]))
  {
    FieldsAim(env, relocs, before, i);
    AimExact(env, relocs[i]);
    if AddressesInReach(env, relocs[i]) {
      DenotesOne(env, relocs[i], Load(Linked(env, relocs, before).text, env.textVaddr, Place(env, relocs[i]).value,
                                      WidthOf(relocs[i].ty)).value);
    }
  }

  /** The image changes only in the relocated fields and the displacement bytes of the stubs. */
  lemma OnlyFieldsChange(env: Env, relocs: seq<Reloc>, before: Image, i: nat)
    requires Layout(env) && Links(env, relocs, before) && i < |before.text|
    requires forall k :: 0 <= k < |relocs| && RelocStep(env, relocs[k]).Writes? ==>
             !Covers(RelocStep(env, relocs[k]).p, i)
    requires forall k: nat :: k < |env.plts| ==>
             !Covers(Patch(env.pltOff + STUB_SIZE * k + 2, Bytes4(StubDisplacement(env, k) % HALF)), i)
    ensures Linked(env, relocs, before).text[i] == before.text[i]
  {
    UncoveredByte(before.text, RelocSteps(env, relocs), i);
    forall k | 0 <= k < |env.plts|
      ensures StubSteps(env)[k].Writes? && !Covers(StubSteps(env)[k].p, i)
    {
      StubStepAt(env, k);
    }
    UncoveredByte(After(before.text, RelocSteps(env, relocs)), StubSteps(env), i);
  }

  /** The order in which relocations are processed does not matter. */
  lemma RelocationOrder(env: Env, relocs: seq<Reloc>, order: seq<Reloc>, before: Image)
    requires FieldsPlaced(env, relocs) && Links(env, relocs, before)
    requires multiset(relocs) == multiset(order)
    ensures Links(env, order, before)
    ensures Linked(env, order, before) == Linked(env, relocs, before)
  {
    StepsMultiset(env, relocs, order);
    AnyOrder(before.text, RelocSteps(env, relocs), RelocSteps(env, order));
  }

  /** The steps of a rearranged list are the rearranged steps. */
  lemma {:induction false} StepsMultiset(env: Env, relocs: seq<Reloc>, order: seq<Reloc>)
    requires multiset(relocs) == multiset(order)
    ensures multiset(RelocSteps(env, relocs)) == multiset(RelocSteps(env, order))
    decreases |relocs|
  {
    if relocs == [] {
      assert |order| == |multiset(order)| == 0;
    } else {
      var r := relocs[0];
      assert r in multiset(order);
      var k :| 0 <= k < |order| && order[k] == r;
      var rest := TakeOut(env, relocs, 0);
      var others := TakeOut(env, order, k);
      StepsMultiset(env, rest, others);
    }
  }

  lemma TakeOut(env: Env, relocs: seq<Reloc>, k: nat) returns (rest: seq<Reloc>)
    requires k < |relocs|
    ensures |rest| < |relocs|
    ensures multiset(rest) == multiset(relocs) - multiset{relocs[k]}
    ensures multiset(RelocSteps(env, relocs)) == multiset(RelocSteps(env, rest)) + multiset{RelocStep(env, relocs[k])}
  {
    var a, x, b := relocs[..k], [relocs[k]], relocs[k + 1..];
    rest := a + b;
    assert relocs == a + x + b;
    StepsAppend(env, a + x, b);
    StepsAppend(env, a, x);
    StepsAppend(env, a, b);
    assert RelocSteps(env, x) == [RelocStep(env, relocs[k])];
  }

  lemma StepsAppend(env: Env, a: seq<Reloc>, b: seq<Reloc>)
    ensures RelocSteps(env, a + b) == RelocSteps(env, a) + RelocSteps(env, b)
  {
  }

  // ----- Stubs and slots ------------------------------------------------------------------------

  lemma OpcodeKept(env: Env, relocs: seq<Reloc>, before: Image, k: nat)
    requires Layout(env) && FieldsPlaced(env, relocs) && Links(env, relocs, before) && StubsPresent(env, before.text)
    requires k < |env.plts|
    ensures Holds(After(before.text, RelocSteps(env, relocs)), Patch(env.pltOff + STUB_SIZE * k, STUB[..2]))
  {
    var opcode := Patch(env.pltOff + STUB_SIZE * k, STUB[..2]);
    HoldsPrefix(before.text, opcode.off, STUB, 2);
    forall i | 0 <= i < |relocs| && RelocSteps(env, relocs)[i].Writes?
      ensures Apart(opcode, RelocSteps(env, relocs)[i].p)
    {
      FieldsEndBeforeStubs(env, relocs, i);
    }
    AfterSuccess(before.text, RelocSteps(env, relocs));
    HoldsThrough(before.text, RelocSteps(env, relocs), |relocs|, opcode);
  }

  lemma StubStepsApart(env: Env, j: nat, k: nat)
    requires Layout(env) && j < |env.plts| && k < |env.plts|
    ensures StubSteps(env)[j].Writes? && Apart(Patch(env.pltOff + STUB_SIZE * k, STUB[..2]), StubSteps(env)[j].p)
    ensures StubSteps(env)[k].Writes? && (j != k ==> Apart(StubSteps(env)[k].p, StubSteps(env)[j].p))
  {
    StubStepAt(env, j);
    StubStepAt(env, k);
  }

  /** In the finished module stub k is still a jump, with its displacement filled in. */
  lemma StubPatched(env: Env, relocs: seq<Reloc>, before: Image, k: nat)
    requires Layout(env) && FieldsPlaced(env, relocs) && Links(env, relocs, before) && StubsPresent(env, before.text)
    requires k < |env.plts|
    ensures Holds(Linked(env, relocs, before).text,
                  Patch(env.pltOff + STUB_SIZE * k, STUB[..2] + Bytes4(StubDisplacement(env, k) % HALF)))
  {
    var mid, steps := After(before.text, RelocSteps(env, relocs)), StubSteps(env);
    OpcodeKept(env, relocs, before, k);
    forall j | 0 <= j < |steps|
      ensures steps[j].Writes? && Apart(Patch(env.pltOff + STUB_SIZE * k, STUB[..2]), steps[j].p)
      ensures steps[k].Writes? && (j != k ==> Apart(steps[k].p, steps[j].p))
    {
      StubStepsApart(env, j, k);
    }
    AfterSuccess(mid, steps);
    HoldsThrough(mid, steps, |steps|, Patch(env.pltOff + STUB_SIZE * k, STUB[..2]));
    StepHolds(mid, steps, |steps|, k);
    StubStepAt(env, k);
    HoldsAppend(After(mid, steps), env.pltOff + STUB_SIZE * k, STUB[..2], Bytes4(StubDisplacement(env, k) % HALF));
  }

  /** In the finished module slot k of a symbol found in Shiva holds the symbol's address, whatever
      the stores for the module's own symbols hit: those are made in slots order, 64 bytes apart. */
  lemma SlotResolved(env: Env, relocs: seq<Reloc>, before: Image, k: nat)
    requires Layout(env) && Links(env, relocs, before) && k < |env.gots| && !Local(env, env.gots[k].symname)
    ensures SelfAddress(env, env.gots[k].symname).Some?
    ensures Holds(Linked(env, relocs, before).data,
                  Patch(env.pltgotOff + 8 * k, Bytes8(SelfAddress(env, env.gots[k].symname).value % WORD)))
  {
    var steps := GotSteps(env);
    assert !steps[k].Fails?;
    AfterSuccess(before.data, steps);
    forall j | k < j < |steps| && steps[j].Writes?
      ensures Apart(steps[k].p, steps[j].p)
    {
      LaterSlotsApart(env, k, j);
    }
    StepHolds(before.data, steps, |steps|, k);
  }

  lemma LaterSlotsApart(env: Env, k: nat, j: nat)
    requires GotWf(env.gots) && k < j < |env.gots| && !Local(env, env.gots[k].symname)
    requires GotStep(env, env.gots[k]).Writes? && GotStep(env, env.gots[j]).Writes?
    ensures Apart(GotStep(env, env.gots[k]).p, GotStep(env, env.gots[j]).p)
  {
    assert env.gots[j].gotoff == 8 * j && env.gots[k].gotoff == 8 * k;
  }

  /** The slot of a symbol found in the module itself is the one that its store hits only if it is the
      very first byte of the data segment, and the word stored is the symbol's address only if the symbol is in
      the section that begins the text segment. */
  lemma LocalSlotMissed(env: Env, k: nat)
    requires Layout(env) && SegmentsApart(env) && k < |env.gots|
    requires env.gots[k].symname in env.elf.symbols && env.elf.symbols[env.gots[k].symname].ty in {SttFunc, SttObject}
    ensures GotStep(env, env.gots[k]).Writes?
    ensures GotStep(env, env.gots[k]).p.off == env.pltgotOff + 8 * k <==> env.pltgotOff == 0 && k == 0
    ensures var word := env.textVaddr + env.elf.symbols[env.gots[k].symname].value;
            && Word8(GotStep(env, env.gots[k]).p.bytes) == word % WORD
            && (NamedAddress(env, env.gots[k].symname) == Some(word) <==> CountsFromText(env, env.gots[k].symname))
  {
    assert env.gots[k].gotoff == 8 * k;
    TextSymbolExact(env, env.gots[k].symname);
    Word8Bytes8((env.elf.symbols[env.gots[k].symname].value + env.textVaddr) % WORD);
  }

  /** Resolution changes only the bytes it stores to. */
  lemma OnlySlotsChange(env: Env, relocs: seq<Reloc>, before: Image, i: nat)
    requires Links(env, relocs, before) && i < |before.data|
    requires forall k :: 0 <= k < |env.gots| && GotStep(env, env.gots[k]).Writes? ==>
             !Covers(GotStep(env, env.gots[k]).p, i)
    ensures Linked(env, relocs, before).data[i] == before.data[i]
  {
    UncoveredByte(before.data, GotSteps(env), i);
  }

  // ----- End to end -------------------------------------------------------------------------------

  /** The stub of a symbol that Shiva defines jumps to the symbol. */
  lemma StubReaches(env: Env, relocs: seq<Reloc>, before: Image, k: nat)
    requires Layout(env) && FieldsPlaced(env, relocs) && Links(env, relocs, before) && StubsPresent(env, before.text)
    requires k < |env.plts| && !Local(env, env.plts[k].symname)
    requires -0x8000_0000 <= StubDisplacement(env, k) < 0x8000_0000
    ensures SelfAddress(env, env.plts[k].symname).Some?
    ensures StubGoes(Linked(env, relocs, before), env, env.plts[k].vaddr) ==
            Some(SelfAddress(env, env.plts[k].symname).value % WORD)
  {
    assert StubAt(env, k);
    var slot := FindGot(env.gots, env.plts[k].symname).value;
    var j :| 0 <= j < |env.gots| && env.gots[j] == slot;
    StubPatched(env, relocs, before, k);
    SlotResolved(env, relocs, before, j);
    StubFollowed(Linked(env, relocs, before), env, k, j, SelfAddress(env, env.plts[k].symname).value % WORD);
  }

  lemma StubFollowed(im: Image, env: Env, k: nat, j: nat, v: nat)
    requires Layout(env) && k < |env.plts| && j < |env.gots| && v < WORD
    requires FindGot(env.gots, env.plts[k].symname) == Some(env.gots[j])
    requires -0x8000_0000 <= StubDisplacement(env, k) < 0x8000_0000
    requires Holds(im.text, Patch(env.pltOff + STUB_SIZE * k, STUB[..2] + Bytes4(StubDisplacement(env, k) % HALF)))
    requires Holds(im.data, Patch(env.pltgotOff + 8 * j, Bytes8(v)))
    ensures StubGoes(im, env, env.plts[k].vaddr) == Some(v)
  {
    assert StubAt(env, k);
    var d := StubDisplacement(env, k);
    var b := STUB[..2] + Bytes4(d % HALF);
    assert b[2..] == Bytes4(d % HALF) && b[..2] == STUB[..2];
    Word4Bytes4(d % HALF);
    SignedHalf(d);
    Word8Bytes8(v);
    assert Load(im.text, env.textVaddr, env.plts[k].vaddr, STUB_SIZE) == Some(b);
    assert env.plts[k].vaddr + STUB_SIZE + d == env.Got() + 8 * j;
    assert Load(im.data, env.dataVaddr, env.Got() + 8 * j, 8) == Some(Bytes8(v));
  }

  /** A stub for the symbol that the first-match search finds is one of the list. */
  lemma {:induction false} FindPltAt(list: seq<PltEntry>, name: string) returns (k: nat)
    requires FindPlt(list, name).Some?
    ensures k < |list| && FindPlt(list, name) == Some(list[k])
  {
    if list[0].symname == name {
      k := 0;
    } else {
      k := FindPltAt(list[1..], name);
      k := k + 1;
    }
  }

  /** The whole path, from a call with a PLT32 relocation: it enters a stub of the symbol, which
      jumps to the address where Shiva has the symbol. */
  ghost predicate Arrives(im: Image, env: Env, stub: int, name: string) {
    && (exists e :: e in env.plts && e.vaddr == stub && e.symname == name)
    && SelfAddress(env, name).Some?
    && StubGoes(im, env, stub) == Some(SelfAddress(env, name).value % WORD)
  }

  /** Every stub is within 2 GB of its slot. */
  ghost predicate SlotsNear(env: Env) {
    forall k :: 0 <= k < |env.plts| ==> -0x8000_0000 <= StubDisplacement(env, k) < 0x8000_0000
  }

  lemma StubArrives(env: Env, relocs: seq<Reloc>, before: Image, name: string)
    requires Layout(env) && FieldsPlaced(env, relocs) && Links(env, relocs, before) && StubsPresent(env, before.text)
    requires SlotsNear(env) && !Local(env, name) && FindPlt(env.plts, name).Some?
    ensures Arrives(Linked(env, relocs, before), env, FindPlt(env.plts, name).value.vaddr, name)
  {
    var k := FindPltAt(env.plts, name);
    StubReaches(env, relocs, before, k);
  }

  lemma CallReaches(env: Env, relocs: seq<Reloc>, before: Image, i: nat)
    requires Layout(env) && FieldsPlaced(env, relocs) && Links(env, relocs, before) && StubsPresent(env, before.text)
    requires Wired(env) && SlotsNear(env) && i < |relocs| && Applied(relocs[i]) && Led(env.elf, relocs[i])
    requires relocs[i].ty == Plt32 && relocs[i].addend == -4 && !Local(env, relocs[i].symname)
    ensures Place(env, relocs[i]).Some? && FindPlt(env.plts, relocs[i].symname).Some?
    ensures CallLands(Linked(env, relocs, before), env, Place(env, relocs[i]).value,
                      FindPlt(env.plts, relocs[i].symname).value.vaddr)
    ensures Arrives(Linked(env, relocs, before), env, FindPlt(env.plts, relocs[i].symname).value.vaddr,
            relocs[i].symname)
  {
    FieldsAim(env, relocs, before, i);
    CallEnters(Linked(env, relocs, before), env, relocs[i]);
    StubArrives(env, relocs, before, relocs[i].symname);
  }

  lemma CallEnters(im: Image, env: Env, r: Reloc)
    requires r.ty == Plt32 && r.addend == -4 && FieldGives(env, r, im.text, Aim(env, r))
    ensures FindPlt(env.plts, r.symname).Some?
    ensures CallLands(im, env, Place(env, r).value, FindPlt(env.plts, r.symname).value.vaddr)
  {
    var place := Place(env, r).value;
    NearField(place, Load(im.text, env.textVaddr, place, 4).value, FindPlt(env.plts, r.symname).value.vaddr - 4);
  }

  lemma NearField(anchor: int, bytes: seq<byte>, target: int)
    requires Gives(4, anchor, bytes, target)
    ensures |bytes| == 4
    ensures -0x8000_0000 <= target - anchor < 0x8000_0000 ==> anchor + Signed(Word4(bytes), 32) == target
  {
  }

  /** A call within 2 GB of the stub goes to the stub. */
  ghost predicate CallLands(im: Image, env: Env, place: int, stub: int) {
    -0x8000_0000 <= stub - 4 - place < 0x8000_0000 ==> CallGoes(im, env, place) == Some(stub)
  }

  /** The same in the large code model: the GOT base that the code computes from a GOTPC64 field,
      plus the value of a PLTOFF64 field, is the address of such a stub. */
  lemma LargeCallReaches(env: Env, relocs: seq<Reloc>, before: Image, i: nat, j: nat)
    requires Layout(env) && FieldsPlaced(env, relocs) && Links(env, relocs, before) && StubsPresent(env, before.text)
    requires Wired(env) && SlotsNear(env)
    requires i < |relocs| && Applied(relocs[i]) && Led(env.elf, relocs[i]) && relocs[i].ty == GotPc64
    requires j < |relocs| && Applied(relocs[j]) && Led(env.elf, relocs[j]) && relocs[j].ty == PltOff64
    requires !Local(env, relocs[j].symname)
    ensures Place(env, relocs[i]).Some? && Place(env, relocs[j]).Some? && FindPlt(env.plts, relocs[j].symname).Some?
    ensures Arrives(Linked(env, relocs, before), env, FindPlt(env.plts, relocs[j].symname).value.vaddr,
            relocs[j].symname)
    ensures LargeSum(Linked(env, relocs, before), env, relocs[i], relocs[j])
  {
    FieldsAim(env, relocs, before, i);
    FieldsAim(env, relocs, before, j);
    LargeSums(Linked(env, relocs, before), env, relocs[i], relocs[j]);
    StubArrives(env, relocs, before, relocs[j].symname);
  }

  ghost predicate LargeSum(im: Image, env: Env, base: Reloc, off: Reloc)
    requires Place(env, base).Some? && Place(env, off).Some? && FindPlt(env.plts, off.symname).Some?
  {
    var b := Load(im.text, env.textVaddr, Place(env, base).value, 8);
    var o := Load(im.text, env.textVaddr, Place(env, off).value, 8);
    && b.Some? && o.Some?
    && SumIs(Place(env, base).value, b.value, base.addend, o.value, off.addend,
             FindPlt(env.plts, off.symname).value.vaddr)
  }

  ghost predicate SumIs(place: int, b: seq<byte>, a: int, o: seq<byte>, c: int, target: int)
    requires |b| == |o| == 8
  {
    ((place + Word8(b) - a) + (Word8(o) - c)) % WORD == target % WORD
  }

  lemma LargeSums(im: Image, env: Env, base: Reloc, off: Reloc)
    requires base.ty == GotPc64 && off.ty == PltOff64
    requires FieldGives(env, base, im.text, Aim(env, base)) && FieldGives(env, off, im.text, Aim(env, off))
    ensures FindPlt(env.plts, off.symname).Some? && LargeSum(im, env, base, off)
  {
    var b := Load(im.text, env.textVaddr, Place(env, base).value, 8).value;
    var o := Load(im.text, env.textVaddr, Place(env, off).value, 8).value;
    FieldSums(Place(env, base).value, b, base.addend, env.Got(), o, off.addend,
              FindPlt(env.plts, off.symname).value.vaddr);
  }

  lemma FieldSums(place: int, b: seq<byte>, a: int, got: int, o: seq<byte>, c: int, l: int)
    requires Gives(8, place, b, got + a) && Gives(8, got, o, l + c)
    ensures SumIs(place, b, a, o, c, l)
  {
    SumChain(place + Word8(b), got + a, got + Word8(o), l + c, a, c, got, l);
  }

  lemma SumChain(x: int, x2: int, y: int, y2: int, a: int, c: int, got: int, l: int)
    requires x % WORD == x2 % WORD && y % WORD == y2 % WORD && x2 == got + a && y2 == l + c
    ensures (x - a + (y - got - c)) % WORD == l % WORD
  {
    ModCongruent(x, x2, -a + y - got - c, WORD);
    ModCongruent(y, y2, x2 - a - got - c, WORD);
  }

  /** Segments that both lie in the first 2 GB, where MAP_32BIT puts them, are near enough. */
  ghost predicate Low(env: Env) {
    && env.textVaddr + env.pltOff + STUB_SIZE * |env.plts| <= 0x8000_0000
    && env.dataVaddr + env.pltgotOff + 8 * |env.gots| <= 0x8000_0000
  }

  lemma LowSlotsNear(env: Env)
    requires Layout(env) && Low(env)
    ensures SlotsNear(env)
  {
    forall k: nat | k < |env.plts|
      ensures -0x8000_0000 <= StubDisplacement(env, k) < 0x8000_0000
    {
      assert StubAt(env, k);
      var slot := FindGot(env.gots, env.plts[k].symname).value;
      var j :| 0 <= j < |env.gots| && env.gots[j] == slot;
    }
  }

  /** A field of a low text segment is near every stub. */
  lemma LowCallNear(env: Env, relocs: seq<Reloc>, i: nat, k: nat)
    requires Layout(env) && Low(env) && FieldsPlaced(env, relocs) && i < |relocs| && k < |env.plts|
    requires RelocStep(env, relocs[i]).Writes? && relocs[i].ty == Plt32
    ensures 0 <= env.plts[k].vaddr - 4 - (SectionOf(env, relocs[i]).value.vaddr + relocs[i].offset) < 0x8000_0000
  {
    FieldsEndBeforeStubs(env, relocs, i);
    assert FieldBeforeStubs(env, relocs[i]) && MapBelow(env, SectionOf(env, relocs[i]).value);
    assert StubAt(env, k);
  }

  /** The call at a relocation's place goes to a stub that goes to the relocation's symbol. */
  ghost predicate CallArrives(im: Image, env: Env, r: Reloc) {
    && Place(env, r).Some?
    && CallGoes(im, env, Place(env, r).value).Some?
    && Arrives(im, env, CallGoes(im, env, Place(env, r).value).value, r.symname)
  }

  /** In a low module such a call therefore goes to the symbol, through its stub. */
  lemma LowCallReaches(env: Env, relocs: seq<Reloc>, before: Image, i: nat)
    requires Layout(env) && FieldsPlaced(env, relocs) && Links(env, relocs, before) && StubsPresent(env, before.text)
    requires Wired(env) && Low(env) && i < |relocs| && Applied(relocs[i]) && Led(env.elf, relocs[i])
    requires relocs[i].ty == Plt32 && relocs[i].addend == -4 && !Local(env, relocs[i].symname)
    ensures CallArrives(Linked(env, relocs, before), env, relocs[i])
  {
    LowSlotsNear(env);
    CallReaches(env, relocs, before, i);
    var k := FindPltAt(env.plts, relocs[i].symname);
    FieldApplied(env, relocs, before, i);
    LowCallNear(env, relocs, i, k);
    LedPlace(env, relocs[i]);
  }
}
