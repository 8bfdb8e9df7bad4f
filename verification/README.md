# A Dafny model of Shiva and its disassembler

Shiva is a programmable runtime linker and in-process debugger for x86-64 ELF programs. It carries
udis86, a table-driven disassembler whose tables are generated by a script. This project models five
parts of it and proves what each is for:

1. **The opcode-table compiler and the decoder that runs its output.** A script collects instruction
   definitions in a trie (`OpcodeTrie`, `OpcodeTables`) and flattens the trie into numbered tables
   (`TableGenerator`). The decoder walks the flat tables while it reads bytes and consumes prefixes
   (`DecoderState`, `Operands`, `Decoder`; in the program's own form, `Udis86`). `Encoding` and
   `OperandEncoding` say, from the bits of an input alone and without the decoder, which inputs are instances
   of a definition and what their operands are. The main results are that the flat walk does what a walk over
   the trie does (`TableWalk.WalkSim`, `EndToEnd`); that the decoder takes an extension's entry if and only if
   the input is what the extension asks for (`PathMeaning.ChosenIfAsked`); that registers, addresses and
   numbers are the encoded ones (`OperandMeaning.OperandsMean`); and, from these, that an instance of a
   definition is decoded as the last definition of its form, with the encoded prefixes, sizes, operands and
   length, and any other input as invalid (`Instructions.DefinitionDecoded`, `Instructions.MatchedExactly`).
2. **The byte stream and the sweep for call sites** (`DecoderReading`, `Analyze`, `Printer`). Decoding
   depends on the bytes it consumes and nothing else, instructions tile the text, the recorded calls are
   exactly the right ones, and it is known for every operand whether the printers' assertions hold.
3. **The module linker** (`ModuleLayout`, `ModuleReloc`, `ModulePsabi`, `ModuleRun`, `ModuleLinker`, `ModuleLoading`,
   `ModuleExamples`): sizes, section placement, PLT stubs and GOT slots, relocations, compared with section
   4.4.1 of the System V AMD64 psABI, and resolution. The main results follow a call through its stub and its
   slot to the symbol, at its value plus Shiva's base, and say which fields of a loaded module mean what the
   psABI says.
4. **The userland-exec stack and loader** (`UserStack`, `Ulexec`, `SegmentLoader`): the process-entry
   stack of section 3.4.1 of the psABI, rebuilt in one byte region, and the mapping of segments and bss.
5. **Code patching** (`CodePatching`): page ranges and protections of a write, an invariant over every
   history of trampolines, and where a processor that enters a patched function arrives.

`Bytes`, `Pages`, `Modular`, `Patching` and `Itab` hold what these share.

Code that changes things step by step is modelled by classes and methods with loops, each proved against
a specification function; the theorems are about those functions. `ghost` parameters of a method name the
specification's view of the state. Memory that the program writes in place is an `array<byte>`; linked
lists are sequences.

Several properties one would expect do not hold of the code. The model keeps the code as it is, states
the exact condition, and shows an input that fails:

- The data size counts only sections whose flags are exactly ALLOC and WRITE, but all writable sections are
  mapped: the GOT lies behind the data if and only if the two agree (`GotAfterData`, `TlsDataOverlapsGot`).
- The GOT store for a symbol of the module itself adds its offset to a pointer to 8-byte words
  (shiva_module.c:87). It hits the symbol's slot if and only if that slot is at offset 0
  (`LocalSlotMissed`, `LocalSlotMissedAt`), and it is inside the data segment only as far as eight times the
  offset is (`GotStoresInside`, `LocalStoreOutside`). Symbols found in Shiva are not affected (`SlotResolved`).
- A symbol of a relocatable object has a value relative to its section, but the linker adds it to the start of
  the text segment (shiva_module.c:295, 354): a PC32 or GOTOFF64 field means what the psABI says if and only if
  the symbol's section begins that segment; `AimExact` has the condition for every kind of relocation
  (`VariableMissed`). GOT64 is stored without the addend.
- Relocations are always stored in the text image, in the section whose name follows the last dot of the
  relocation section's. They are in place if and only if their section is in the text segment and has one dot,
  in front (`PatchedPlace`, `LedExact`, `RelaNames`; `DataRelocMisplaced`, `InitCallMissed`, `RelRoIsLost`).
- The .bss of a module is filled from the file like any other section: it reads zero if and only if the file
  does there, and a module whose .bss runs past the end of the file does not load (`BssReadsZero`,
  `BssPastEnd`, `BssReadsFile`).
- A bss is prepared for the last of several segments only: `BssExact` says for every segment when a bss byte
  reads zero (`MiddleBssLeft`, `SingleBssLeft`). A first segment is put at the base, so its bytes are at their
  addresses if and only if its address is 0 (`FirstAtBase`, `FirstMisplaced`).
- The vector stays below the strings if and only if it has at most 19 entries, or 20 with an even number of
  pointers (`VectorRoomExact`, `TwentyEntriesOverlap`); types are kept in an int (`AsIntExact`).
- `shiva_trace_write` changes the protection of one page for an empty write inside a page (`RangeExact`,
  `EmptyWriteCounts`), and leaves every page of its range with the protection recorded for the written address.
  `HistoryProtections` says when a history of writes ends with the protections it began with, and
  `AlwaysKeptExact` when they never change (`CrossingWriteChanges`, `RepairedLater`).
- With 32-bit addresses the decoder takes two forms of memory operands for others: relative to the next
  instruction (64-bit mode, mod 0, r/m 5) and, with REX.B, without a base (mod 0, SIB base 5). A memory operand
  names the encoded address under every register file if and only if it is neither (`Addressable`; `FormNames`,
  `RipMissed`, `NoBaseMissed`).
- The target recorded for a call is masked to 32 bits: it is the call's own if and only if that is below 2^32
  (`TargetExact`). A relative offset of 64 bits, which the operand dictionary's `Jv` gives at operand size 64,
  fails the printer's assertion, and nothing else does (`DecodePrintable`, `RelExact`).
- A handler registered n times is installed n times. Writing back in order restores the code if and only if n
  is at most 1 or the trampoline was there before (`RestoreInstalls`, `RegisteredTwice`).

Where comments in the code disagree with the code, the code is followed: symbol values are added to the text
segment although a comment (shiva_module.c:280-286) knows those of labels to be relative to their section, and
an error inside an operand decoder makes the decoder's helper return 1.

## Model

| member | source | states |
|---|---|---|
| `OpcodeTables.PathWellOrdered` | reference/shiva-source/udis86-1.7.2/scripts/ud_opcode.py:155-174 | the ordered list of every sound definition puts plain opcodes first and then extensions in table order, so each step may follow the one before and an extension table never leads to an opcode table |
| `OpcodeTables.PlainOpcodes` | reference/shiva-source/udis86-1.7.2/scripts/ud_opcode.py:155-158 | the first loop collects exactly the plain opcodes in order |
| `OpcodeTables.PickedOpcodes` | reference/shiva-source/udis86-1.7.2/scripts/ud_opcode.py:170-174 | the nested loops collect, pass by pass, every opcode whose text starts with the pass's prefix, so `/mod` is collected again by `/m` |
| `OpcodeTables.OrderedSpelled` | reference/shiva-source/udis86-1.7.2/scripts/ud_opcode.py:137-174 | the ordered list written out: the plain opcodes, then the extensions kind by kind in the script's order, `sse=none` behind the alternatives of every two-byte opcode, and `/mod` a second time with `/m` |
| `OpcodeTables.OrderOpcodes` | reference/shiva-source/udis86-1.7.2/scripts/ud_opcode.py:151-174 | the loops together produce the ordered list, or the error for a list that cannot be indexed |
| `OpcodeTrie.BuildHolds` | reference/shiva-source/udis86-1.7.2/scripts/ud_opcode.py:176-200 | after any accepted sequence of definitions the trie's nodes are exactly the prefixes of their paths, inner nodes have the kinds the paths say, and a leaf is the last definition on its path |
| `OpcodeTrie.AcceptedExactly` | reference/shiva-source/udis86-1.7.2/scripts/ud_opcode.py:109-115 | a sequence of definitions is accepted if and only if the paths of any two of them agree on the kind of every table that they share |
| `OpcodeTrie.PutHolds` | reference/shiva-source/udis86-1.7.2/scripts/ud_opcode.py:176-200 | adding one definition makes its path follow its kinds to its entry, adds nothing else and changes no other node |
| `OpcodeTables.UdOpcodeTables.UpdateTable` | reference/shiva-source/udis86-1.7.2/scripts/ud_opcode.py:109-115 | creates a missing node, keeps an existing one, and refuses one of another type |
| `OpcodeTables.UdOpcodeTables.Parse` | reference/shiva-source/udis86-1.7.2/scripts/ud_opcode.py:176-200 | the in-place walk succeeds exactly when the definition can be put into the trie, and then leaves that trie |
| `OpcodeTables.UdOpcodeTables.AddInsnDef` | reference/shiva-source/udis86-1.7.2/scripts/ud_opcode.py:216-226 | extends the trie of the earlier definitions to that of all of them, or fails when it cannot be built |
| `TableGenerator.GenTableHolds` | reference/shiva-source/udis86-1.7.2/scripts/ud_itab.py:206-248 | preorder invariant of the recursion: tables and rows are appended contiguously, every subtree gets numbers larger than its parent, and nothing placed earlier moves |
| `TableGenerator.GenRowHolds` | reference/shiva-source/udis86-1.7.2/scripts/ud_itab.py:217-240 | the row being filled has one entry per index: a group number, a leaf number, or 0 |
| `TableGenerator.GenerateEncodes` | reference/shiva-source/udis86-1.7.2/scripts/ud_itab.py:206-258 | the generated lists encode the trie: every table entry names the child's table, the child's row, or row 0 when the trie has no child at that index; nodes at an index outside their table's size get no place, as in the script |
| `TableGenerator.UdItabGenerator.GenLookupTable` | reference/shiva-source/udis86-1.7.2/scripts/ud_itab.py:206-248 | the imperative recursion over ItabIdx, GtabIdx and the four lists computes the same generation |
| `TableGenerator.UdItabGenerator.GenLookupTableList` | reference/shiva-source/udis86-1.7.2/scripts/ud_itab.py:250-258 | turns the collected table bodies into the list indexed by group number |
| `TableGenerator.UdItabGenerator.Generate` | reference/shiva-source/udis86-1.7.2/scripts/ud_itab.py:250-258 | from a fresh generator, the flat tables that encode the trie |
| `TableWalk.CompiledIsWf` | reference/shiva-source/udis86-1.7.2/scripts/ud_itab.py:206-248 | flat tables made from a well-formed trie satisfy everything the decoder's walk relies on: larger child numbers, full rows, no opcode table below an extension |
| `TableWalk.WalkSim` | reference/shiva-source/udis86-1.7.2/libudis86/decode.c:994-1069 | compiler correctness: for every input, mode and vendor the walk over the flat tables from table 0 ends in the same state and at the same row contents as the walk over the trie, at the number given to the trie's node, and at row 0 if and only if the trie has no node there |
| `EndToEnd.BuiltIsWf` | reference/shiva-source/udis86-1.7.2/scripts/ud_opcode.py:143-200 | a trie built from well-ordered definitions is well-formed for the walk |
| `EndToEnd.RepeatIsFree` | reference/shiva-source/udis86-1.7.2/scripts/ud_opcode.py:170-174 | a `/mod` step that repeats an earlier one chooses the entry chosen before and reads nothing |
| `EndToEnd.TrieReached` | reference/shiva-source/udis86-1.7.2/libudis86/decode.c:952-1050 | an input that matches a definition's path, extensions taken in table order with their effect on the prefixes, is led through the trie to the last definition on that path |
| `EndToEnd.TrieMatched` | reference/shiva-source/udis86-1.7.2/libudis86/decode.c:952-1050 | the walk over the trie stops at a node of the trie if and only if the input matches some definition |
| `PathMeaning.PrefixesMean` | reference/shiva-source/udis86-1.7.2/libudis86/decode.c:203-264 | the prefixes that are read are the leading prefix bytes of the mode, the last segment and string prefix counts, 66 and 67 count anywhere, REX only in the last place; more than 13 prefixes, or nothing behind them, is an error |
| `PathMeaning.ChosenIfAsked` | reference/shiva-source/udis86-1.7.2/libudis86/decode.c:952-1050 | the decoder takes an extension's entry if and only if the input is what the extension asks: f2 or f3 the last string prefix, 66 without one, none no usable alternative, `/mod`, `/reg`, `/rm` and `/x87` the bits of ModRM, `/o` and `/a` the effective size, `/m` 64-bit mode or not; and it keeps all prefixes but the one used up |
| `PathMeaning.TakesAsked` | reference/shiva-source/udis86-1.7.2/libudis86/decode.c:994-1050 | all extensions of a definition and its vendor are taken if and only if the input asks for them, one after the other |
| `PathMeaning.MatchesSame` | reference/shiva-source/udis86-1.7.2/libudis86/decode.c:1053-1069 | an input takes a definition's path through the tables if and only if it is an instance of the definition: at most 13 prefixes, the opcode bytes, and what the extensions and the vendor ask |
| `Instructions.DefinitionReached` | reference/shiva-source/udis86-1.7.2/libudis86/decode.c:952-1069 | end to end: for every accepted sequence of sound definitions and its flat tables, an instance of a definition, in terms of its bytes alone, reaches the row of the last definition of the same form |
| `Instructions.MatchedExactly` | reference/shiva-source/udis86-1.7.2/libudis86/decode.c:952-1108 | the walk over the flat tables ends anywhere but at row 0 if and only if the input is an instance of some definition, and any other input is decoded as the invalid instruction |
| `Instructions.DefinitionDecoded` | reference/shiva-source/udis86-1.7.2/libudis86/decode.c:1076-1108 | and the decoded instruction shows what the bytes encode by that row: the prefixes left over and resolved, the effective operand and address size, the name (NOP and PAUSE included), far branches, every operand, and the length; for a 3DNow definition its name when the last byte is the definition's; and it is the invalid instruction when decoding fails |
| `OperandMeaning.OperandsMean` | reference/shiva-source/udis86-1.7.2/libudis86/decode.c:637-811 | the operands of a row are what its descriptions say of the bytes: the register of the reg, r/m or opcode field with its REX bit and of the class and width, the byte registers with and without REX, the encoded address, immediates, offsets and far pointers little end first at their places; and they end where the instruction does |
| `OperandMeaning.RegMeans` | reference/shiva-source/udis86-1.7.2/libudis86/decode.c:353-415 | a decoded general register reads, under every register file, the bits of the register that the number and the width encode |
| `OperandMeaning.MemMeans` | reference/shiva-source/udis86-1.7.2/libudis86/decode.c:491-620 | a decoded memory operand has the encoded width, and names the encoded address if and only if its form is addressable |
| `OperandMeaning.FormNames` | reference/shiva-source/udis86-1.7.2/libudis86/decode.c:515-615 | under every register file base, scaled index and signed displacement sum up to the address that ModRM, SIB, REX and the displacement encode, in 64, 32 and 16 bits, rip, no base and no index included, if and only if the form is none of the two that the decoder takes for others |
| `OperandMeaning.RipMissed` | reference/shiva-source/udis86-1.7.2/libudis86/decode.c:549-585 | with 32-bit addresses an operand relative to the next instruction is decoded without rip: a register file tells them apart |
| `OperandMeaning.NoBaseMissed` | reference/shiva-source/udis86-1.7.2/libudis86/decode.c:560-582 | with 32-bit addresses and REX.B an operand without a base is decoded with R13D as its base: a register file tells them apart |
| `OperandMeaning.UintMeans` | reference/shiva-source/udis86-1.7.2/libudis86/decode.c:117-160 | a number is read from the next bytes, little end first |
| `EndToEnd.CompileDefs` | reference/shiva-source/udis86-1.7.2/scripts/ud_itab.py:357-366 | adding all definitions and generating yields tables that encode their trie, or fails exactly when the trie cannot be built |
| `EndToEnd.GeneratedLength` | reference/shiva-source/udis86-1.7.2/libudis86/decode.c:203-274 | with tables from definitions of at most three plain opcodes no instruction takes more than 42 bytes, so the 64-byte session buffer holds it |
| `Decoder.WalkExt` | reference/shiva-source/udis86-1.7.2/libudis86/decode.c:994-1050 | the chain of extension tables ends on every well-formed table, because the pointer only moves to larger numbers, and at a row or a 3DNow table |
| `Decoder.WalkOpcode` | reference/shiva-source/udis86-1.7.2/libudis86/decode.c:1053-1069 | the recursion over opcode tables ends on every well-formed table and every input |
| `DecoderReading.DecodeLocal` | reference/shiva-source/udis86-1.7.2/libudis86/decode.c:80-101 | if decoding does not run into the end of the input, any other input that agrees on the bytes consumed gives the same instruction, state and length |
| `DecoderReading.DecodeLength` | reference/shiva-source/udis86-1.7.2/libudis86/decode.c:203-274 | at most 39 + n bytes per instruction on tables that nest n opcode tables: 15 prefixes at most, one ModRM byte, eight bytes per operand |
| `DecoderReading.DecodeProgress` | reference/shiva-source/udis86-1.7.2/libudis86/decode.c:1076-1108 | decoding consumes at least one byte unless there is none left |
| `Udis86.Ud.InpNext` | reference/shiva-source/udis86-1.7.2/libudis86/decode.c:80-101 | the cursor, the counter and the session buffer after one byte, from a buffer or a hook, and the end and error flags at the end of the input |
| `Udis86.Ud.ReadPrefixes` | reference/shiva-source/udis86-1.7.2/libudis86/decode.c:203-264 | the prefix loop computes the model's prefixes, the last of each group winning, and stops after 15 with an error |
| `Udis86.Ud.UdDecode` | reference/shiva-source/udis86-1.7.2/libudis86/decode.c:1076-1108 | from any state left by earlier instructions, the end flag included: the instruction that the remaining input decodes to, whose meaning `Instructions.DefinitionDecoded` gives, the bytes consumed, and the invalid instruction on error |
| `Udis86.Ud.UdDisassemble` | reference/shiva-source/udis86-1.7.2/libudis86/udis86.c:65-79 | 0 at the end of the input; otherwise one instruction, its length, and the program counter moved by it modulo 2^64 |
| `Udis86.ReportedBytes` | reference/shiva-source/udis86-1.7.2/libudis86/udis86.c:187-206 | the bytes reported for the instruction just decoded are the input bytes it consumed, with a buffer and with a hook alike, and the input that remains starts right behind them |
| `Udis86.NextInputAfter` | reference/shiva-source/udis86-1.7.2/libudis86/decode.c:80-100 | a buffer and a hook deliver the same remaining input, byte by byte, with the same cursor, counter and end flag |
| `Udis86.Ud.SetInputBuffer` | reference/shiva-source/udis86-1.7.2/libudis86/udis86.c:379-385 | the input is the buffer from its first byte |
| `Udis86.Ud.SetInputHook` | reference/shiva-source/udis86-1.7.2/libudis86/udis86.c:367-372 | the input is what the hook delivers |
| `Udis86.Ud.InputSkip` | reference/shiva-source/udis86-1.7.2/libudis86/udis86.c:416-446 | advances the input by n bytes, or to its end with the end flag when there are fewer |
| `Printer.DecodePrintable` | reference/shiva-source/udis86-1.7.2/libudis86/syn.c:86-203 | every operand of every decoded instruction satisfies what the printers assert (known widths, sign extension from 8 or 32 bits only, consistent base, index, scale and displacement) if and only if it is not a relative offset of 64 bits |
| `Printer.RelExact` | reference/shiva-source/udis86-1.7.2/scripts/ud_itab.py:76-78 | a relative offset of the operand dictionary can be printed unless its size is the operand size and that is 64 |
| `Printer.ImmExtends` | reference/shiva-source/udis86-1.7.2/libudis86/syn.c:146-165 | a sign-extended immediate prints as the one value below 2^opr_mode congruent to the signed immediate |
| `Printer.ImmPlain` | reference/shiva-source/udis86-1.7.2/libudis86/syn.c:146-165 | any other immediate prints as it is |
| `Printer.TruncateTwice` | reference/shiva-source/udis86-1.7.2/libudis86/syn.c:86-97 | truncating a target to 64 bits first makes no difference to the narrower truncation |
| `Printer.RelTargetExact` | reference/shiva-source/udis86-1.7.2/libudis86/syn.c:86-97 | the target of a relative branch is the sum of the program counter and the signed 8-, 16- or 32-bit offset modulo 2 to the operand size |
| `Analyze.StartsTile` | reference/shiva-source/shiva_analyze.c:26-95 | the instructions tile the text: each ends where the next begins, the last at the end, no gap and no overlap |
| `Analyze.CallDecodes` | reference/shiva-source/shiva_analyze.c:33-54 | at a byte 0xE8 decoding gives a call exactly when five bytes are left, of length 5 with the 32-bit displacement as operand, in 32- and 64-bit mode |
| `Analyze.SitesExact` | reference/shiva-source/shiva_analyze.c:41-93 | a site is recorded exactly for the starts that decode as a call and whose first byte is 0xE8, with site, return address, and target computed from the four bytes behind it |
| `Analyze.SitesAscend` | reference/shiva-source/shiva_analyze.c:88-94 | sites are recorded in strictly ascending order where the text does not wrap around the address space |
| `Analyze.TargetAgrees` | reference/shiva-source/shiva_analyze.c:50-54 | the recorded return address is site + 5 and the recorded target agrees modulo 2^32 with the text's base plus the decoder's own branch target, in both modes |
| `Analyze.TargetExact` | reference/shiva-source/shiva_analyze.c:50-53 | the recorded target, masked to 32 bits, is the call's own 64-bit target if and only if that is below 2^32 |
| `Analyze.Record` | reference/shiva-source/shiva_analyze.c:33-93 | one turn appends exactly what belongs at the offset the decoder is at |
| `Analyze.Sweep` | reference/shiva-source/shiva_analyze.c:26-95 | the loop ends, its own address is always base plus the decoder's offset, and it records everything from offset 0 on |
| `Analyze.FindCalls` | reference/shiva-source/shiva_analyze.c:6-97 | the recorded sites are exactly those of the tiling, in order |
| `ModuleLayout.MapsContiguous` | reference/shiva-source/shiva_module.c:757-808 | mapped sections are contiguous and in order, from 0 to the total |
| `ModuleLayout.MapsDisjoint` | reference/shiva-source/shiva_module.c:757-808 | no two mapped sections overlap and all lie below the total |
| `ModuleLayout.TextFits` | reference/shiva-source/shiva_module.c:581-615 | all stubs lie after the mapped sections and inside the size computed before, although .eh_frame and note sections were counted and then skipped |
| `ModuleLayout.GotAfterData` | reference/shiva-source/shiva_module.c:501-516 | the GOT starts at or after the end of the data sections if and only if every non-empty writable section has exactly the flags ALLOC and WRITE |
| `ModuleExamples.TlsDataOverlapsGot` | reference/shiva-source/shiva_module.c:503-505 | a module that loads: its thread-local data is mapped but not counted, the GOT starts on it, and the slot of a called symbol is stored over it |
| `ModuleLoading.GotInSegment` | reference/shiva-source/shiva_module.c:501-575 | every slot of the GOT is inside the data segment, and behind the data sections if and only if these are all plain |
| `ModuleLoading.PlainDataFits` | reference/shiva-source/shiva_module.c:501-516 | plain data sections fit in the data segment |
| `ModuleLayout.GotListWf` | reference/shiva-source/shiva_module.c:525-575 | GOT names are unique and offsets are 8 times the position |
| `ModuleLayout.GotListComplete` | reference/shiva-source/shiva_module.c:528-575 | a symbol has a GOT slot exactly when some relocation needs one |
| `ModuleLayout.FindGotAt` | reference/shiva-source/shiva_module.c:51-63 | the search by name finds each entry itself |
| `ModuleLayout.StubsAt` | reference/shiva-source/shiva_module.c:831-860 | stub k is the k-th of the row, for the symbol of a PLT relocation |
| `ModuleLayout.StubsComplete` | reference/shiva-source/shiva_module.c:831-860 | every PLT relocation's symbol has a stub |
| `ModuleLayout.StubHasSlot` | reference/shiva-source/shiva_module.c:164-170 | every stub's symbol has a GOT slot, so patching the stubs cannot fail |
| `ModuleLinker.SectionsMapped` | reference/shiva-source/shiva_module.c:440-486 | every mapped section's bytes are in the segment where the sections before it end |
| `ModuleLinker.ShivaModule.CalculateTextSize` | reference/shiva-source/shiva_module.c:581-615 | sizes, stub offset and stub count |
| `ModuleLinker.ShivaModule.CalculateDataSize` | reference/shiva-source/shiva_module.c:490-579 | data size and GOT offset, the GOT list, and a hash cache that gives the same entry as the list for every symbol; fails exactly without a .bss |
| `ModuleLinker.ShivaModule.ElfSectionMap` | reference/shiva-source/shiva_module.c:440-486 | copies the section by quadwords and a remainder; fails exactly when the file is too short, and then has written only inside the section's range |
| `ModuleLinker.ShivaModule.MapSections` | reference/shiva-source/shiva_module.c:651-684 | maps every selected section in order and records it, or fails exactly when one cannot be read |
| `ModuleLinker.ShivaModule.CreateTextImage` | reference/shiva-source/shiva_module.c:688-863 | the text image, its mappings, and a stub with its entry per PLT relocation |
| `ModuleLinker.ShivaModule.CopyStubs` | reference/shiva-source/shiva_module.c:811-861 | one unpatched stub and one list entry per PLT relocation |
| `ModuleLinker.ShivaModule.CreateDataImage` | reference/shiva-source/shiva_module.c:617-686 | the data image and its mappings |
| `ModuleLinker.ShivaModule.GotEntryByName` | reference/shiva-source/shiva_module.c:51-63 | the first entry with the name |
| `ModuleLinker.ShivaModule.GetSectionMapping` | reference/shiva-source/shiva_module.c:184-196 | the first mapping with the name |
| `ModuleLinker.ShivaModule.ComputeField` | reference/shiva-source/shiva_module.c:225-397 | the value and width of every relocation type, with its lookups and failures |
| `ModuleLinker.ShivaModule.ApplyRelocation` | reference/shiva-source/shiva_module.c:198-399 | stores exactly that value at the relocated place, or stores nothing and fails |
| `ModuleLinker.ShivaModule.RelocateModule` | reference/shiva-source/shiva_module.c:400-430 | the stores of all relocations up to the first failure, .eh_frame passed over |
| `ModuleLinker.ShivaModule.PatchPltStubs` | reference/shiva-source/shiva_module.c:156-182 | the displacement of every stub up to the first failure |
| `ModuleLinker.ShivaModule.ResolvePltgotEntries` | reference/shiva-source/shiva_module.c:71-110 | the GOT stores up to the first symbol that cannot be resolved, module-local ones at eight times their offset |
| `ModuleLinker.ShivaModule.ShivaModuleLoader` | reference/shiva-source/shiva_module.c:868-942 | loading succeeds exactly when the sections can be read and every pass succeeds, and leaves exactly the linked images |
| `ModuleReloc.RelaNames` | reference/shiva-source/shiva_module.c:212-221 | a relocation section leads to the section it names exactly when that name has its only dot in front |
| `ModuleReloc.RelRoIsLost` | reference/shiva-source/shiva_module.c:212-221 | relocations of `.data.rel.ro` lead to a section called `.ro` |
| `ModulePsabi.SectionsLoaded` | reference/shiva-source/shiva_module.c:688-808 | a section has an address if and only if it is not empty and allocated and neither `.eh_frame` nor a note, or writable while there is something to go into the data segment |
| `ModulePsabi.FindMapSought` | reference/shiva-source/shiva_module.c:184-196 | the lookup of a mapping by name gives the address of the first text section with that name, or else of the first data section, and fails if and only if there is none |
| `ModulePsabi.AimExact` | reference/shiva-source/shiva_module.c:225-397 | the address a relocation is resolved to is the psABI's (S, the address of the symbol's own section plus its value, for PC32 and GOTOFF64) if and only if: for a symbol of the module, its section begins the text segment; for a `.LC` label, its section is `.rodata`; for a section, it is the one its name leads to; for a symbol without a type, Shiva has it at that address, as every undefined one; and for GOT64 there is no addend |
| `ModulePsabi.TextBegins` | reference/shiva-source/shiva_module.c:294-297 | a section is at the address that symbol values are added to if and only if it is the first section of the text segment |
| `ModulePsabi.LedExact` | reference/shiva-source/shiva_module.c:212-221 | with unique section names, relocations are led to the section they are for if and only if it is in the text segment and its name starts with its only dot |
| `ModuleExamples.VariableMissed` | reference/shiva-source/shiva_module.c:345-362 | a module that loads: a variable at the start of `.data`, read with a PC32 relocation, for which the field gives the start of the text segment |
| `ModuleExamples.InitCallMissed` | reference/shiva-source/shiva_module.c:212-233 | a module that loads: the relocation of a call in `.init.text` is stored in `.text`, and the call is left as it is in the file |
| `ModulePsabi.StepDenotes` | reference/shiva-source/shiva_module.c:225-397 | a relocation that is led to its own section is stored at its place P, the address of that section plus its offset; read back and added to its anchor the field gives the psABI's address, modulo 2^64 and in 32 bits exactly within 2 GB, if and only if the condition of AimExact holds, as far as the addresses are in the field's reach |
| `ModulePsabi.StepAims` | reference/shiva-source/shiva_module.c:212-397 | a relocation applies if and only if the section its name leads to is mapped and the lookup of its symbol succeeds |
| `ModulePsabi.PatchedPlace` | reference/shiva-source/shiva_module.c:232-233 | a relocation is stored at its place P if and only if its name leads to its own section and that is in the text segment, or a data section found instead has the same offset by chance, since stores always go to the text image |
| `ModuleExamples.DataRelocMisplaced` | reference/shiva-source/shiva_module.c:232-233 | a module that loads: a relocation of `.data` at offset 4 changes the text segment at offset 4 and leaves the data section as in the file |
| `ModuleRun.EnvHasLayout` | reference/shiva-source/shiva_module.c:651-861 | what sizing and placement establish: text mappings below the stubs, stubs and slots at their positions, a slot for every stub |
| `ModuleRun.FieldsDenote` | reference/shiva-source/shiva_module.c:198-430 | in the finished image the field at P of every relocation that is led to its own section gives the psABI's address if and only if the condition of AimExact holds, as far as the addresses are in the field's reach |
| `ModuleRun.OnlyFieldsChange` | reference/shiva-source/shiva_module.c:156-430 | the finished text differs from the mapped one only in the relocated fields and the stubs' displacement bytes |
| `ModuleRun.RelocationOrder` | reference/shiva-source/shiva_module.c:408-429 | with disjoint fields every order of processing the relocations gives the same images |
| `ModuleRun.StubPatched` | reference/shiva-source/shiva_module.c:164-180 | in the finished text every stub is still a jump, with the distance to its slot as displacement |
| `ModuleRun.SlotResolved` | reference/shiva-source/shiva_module.c:92-109 | in the finished data the slot of a symbol found in Shiva holds its address, its value plus the base, whatever the misplaced stores for local symbols hit |
| `ModuleRun.LocalSlotMissed` | reference/shiva-source/shiva_module.c:83-88 | the store for a module-local symbol hits its own slot if and only if that slot is at offset 0 of the data segment, and the word stored is the symbol's address if and only if its section begins the text segment |
| `ModuleExamples.LocalSlotMissedAt` | reference/shiva-source/shiva_module.c:87-88 | a module that loads: the slot of its own function, at offset 8, is left zero, and the address is at offset 64 |
| `ModuleRun.OnlySlotsChange` | reference/shiva-source/shiva_module.c:71-110 | resolution changes only the bytes it stores to |
| `ModuleLoading.RelocStoresInside` | reference/shiva-source/shiva_module.c:225-397 | relocations placed in their sections are stored inside the text segment |
| `ModuleLoading.GotStoresInside` | reference/shiva-source/shiva_module.c:80-110 | GOT stores stay inside the data segment if and only if those for the module's own symbols, at eight times their offset, do |
| `ModuleExamples.LocalStoreOutside` | reference/shiva-source/shiva_module.c:87-88 | a module for which everything up to the last pass succeeds: behind 8192 bytes of data the address of its own function is stored at offset 65536 of a segment of 12288 bytes |
| `ModuleRun.StubReaches` | reference/shiva-source/shiva_module.c:156-182 | a stub of a symbol found in Shiva jumps to the symbol's address when stub and slot are within 2 GB |
| `ModuleRun.CallReaches` | reference/shiva-source/shiva_module.c:303-315 | a call at the place P of a PLT32 relocation that is led to its own section enters a stub of its symbol, which jumps to the address Shiva has for it |
| `ModuleRun.LargeCallReaches` | reference/shiva-source/shiva_module.c:226-248 | the GOT base from a GOTPC64 field plus a PLTOFF64 value is the address of such a stub, modulo 2^64 |
| `ModuleRun.LowCallReaches` | reference/shiva-source/shiva_module.c:639-640 | in segments below 2 GB, where MAP_32BIT puts them, no distance has to be assumed |
| `ModuleLoading.WellPlacedLoads` | reference/shiva-source/shiva_module.c:915-942 | with plain data, placed relocations and own symbols whose stores fit, all stores are inside the segments, and the module loads if and only if its sections can be read and its symbols resolved |
| `ModuleLoading.LoadedCallReaches` | reference/shiva-source/shiva_module.c:931-942 | end to end for every such module that loads below 2 GB: every PLT32 call, at the place P of a relocation that is led to its own section, against a symbol of Shiva arrives at it |
| `ModuleLoading.LoadedLargeCallReaches` | reference/shiva-source/shiva_module.c:931-942 | the same for a call through a GOTPC64 base and a PLTOFF64 value, both led to their own sections |
| `ModuleLoading.LoadModule` | reference/shiva-source/shiva_module.c:868-942 | from the constructor on, with the symbols of Shiva, its base and the standalone switch as parameters: loading succeeds exactly when it should, and leaves exactly the linked images |
| `ModuleLoading.ShivaSlot` | reference/shiva-source/shiva_module.c:92-109 | in such a module the slot of a symbol of Shiva holds its value in standalone mode and otherwise its value plus Shiva's base, modulo 2^64 |
| `ModuleLoading.ShivaCall` | reference/shiva-source/shiva_module.c:92-109 | and a PLT32 call against it goes to a stub that jumps to that address |
| `ModuleLoading.ShivaLargeCall` | reference/shiva-source/shiva_module.c:92-109 | as does a call through a GOTPC64 base and a PLTOFF64 value |
| `ModuleLoading.ShivaField` | reference/shiva-source/shiva_module.c:364-393 | a PC32 field against a symbol of Shiva gives that address plus the addend |
| `ModuleExamples.ShivaBaseAdded` | reference/shiva-source/shiva_module.c:100-109 | a module that loads while Shiva is at 0x555555550000: the slot of Shiva's function at 0x1000 holds 0x555555551000 |
| `ModuleLoading.LoadedFieldDenotes` | reference/shiva-source/shiva_module.c:931-942 | in every such module that loads, the field of a relocation that is led to its own section gives the psABI's address if and only if the condition of AimExact holds, as far as the addresses are in reach |
| `ModuleLoading.DataSectionsKept` | reference/shiva-source/shiva_module.c:931-942 | without own symbols in the GOT the data sections of a loaded module are as in the file |
| `ModuleLoading.BssReadsZero` | reference/shiva-source/shiva_module.c:651-684 | in every module that loads, a byte of a data section, the .bss included, that no GOT store hits reads zero if and only if the file has a zero at the section's offset |
| `ModuleLoading.BssPastEnd` | reference/shiva-source/shiva_module.c:440-486 | a module whose .bss runs past the end of the file does not load |
| `ModuleExamples.BssReadsFile` | reference/shiva-source/shiva_module.c:651-684 | a module that loads and whose .bss does not read zero |
| `Patching.AnyOrder` | reference/shiva-source/shiva_module.c:408-429 | stores to pairwise disjoint places give the same image in every order |
| `Patching.LittleAt` | reference/shiva-source/shiva_module.c:232-397 | byte k of a stored word has weight 256^k |
| `Patching.ValueAt` | reference/shiva-source/shiva_ulexec.c:62-122 | and so it has when the word is read |
| `UserStack.VectorFits` | reference/shiva-source/shiva_ulexec.c:35-41 | argc, the pointers and the vector with its whole terminator fit below the strings if and only if there are at most 19 entries, although argc is counted with 4 bytes |
| `UserStack.VectorRoomExact` | reference/shiva-source/shiva_ulexec.c:35-41 | what is written, which leaves out the terminator's value, stays below the strings if and only if there are at most 19 entries, or 20 with an even number of pointers |
| `UserStack.FindsTerminators` | reference/shiva-source/shiva_ulexec.c:62-84 | argc is the number of arguments, and NULLs follow argv and envp |
| `UserStack.FindsArguments` | reference/shiva-source/shiva_ulexec.c:63-69 | argv[i] points to a C string equal to the i-th argument |
| `UserStack.FindsEnvironment` | reference/shiva-source/shiva_ulexec.c:77-83 | envp[i] points to a C string equal to the i-th environment string |
| `UserStack.FindsVector` | reference/shiva-source/shiva_ulexec.c:86-122 | iterating the vector in the new stack yields the built entries in order and stops |
| `UserStack.FindsHostVector` | reference/shiva-source/shiva_ulexec.c:86-122 | the vector found there has the host's entries with their types as an int, and the value is the program headers' address at type 3, their number at 5, the interpreter's base at 7, the entry point at 9, the path at 31, and the host's at every other type |
| `UserStack.NullFromAgain` | reference/shiva-source/shiva_auxv.c:29-32 | the vector is found at the same place however far envp has been advanced towards its terminator |
| `UserStack.AsIntExact` | reference/shiva-source/shiva_auxv.c:44-45 | a type kept in an int is the same if and only if it is an int's value, and becomes AT_NULL if and only if its low half is 0 |
| `Ulexec.AuxvIterator.Init` | reference/shiva-source/shiva_auxv.c:6-34 | iterates a given vector, or the one behind the environment's terminator, and fails without either |
| `Ulexec.AuxvIterator.Next` | reference/shiva-source/shiva_auxv.c:37-51 | delivers the entries one by one with their types kept in an int, done exactly at AT_NULL, an error from entry 4096 on |
| `Ulexec.AuxvIterator.SetValue` | reference/shiva-source/shiva_auxv.c:57-70 | changes the value of the entry delivered last and nothing else, and refuses before the first |
| `Ulexec.ShivaCtx.SaveStack` | reference/shiva-source/shiva_ulexec.c:131-172 | both string tables end to end, their counts and lengths, and envp left at its terminator |
| `Ulexec.ShivaCtx.PushVector` | reference/shiva-source/shiva_ulexec.c:86-122 | the host's entries in order as the iterator delivers them, with PHDR, PHNUM, BASE, ENTRY and EXECFN replaced, then AT_NULL |
| `Ulexec.ShivaCtx.BuildAuxvStack` | reference/shiva-source/shiva_ulexec.c:23-129 | the new stack: words below strings, nothing overlapping, the host's vector with five values replaced, and a 16-byte aligned stack pointer |
| `Ulexec.ShivaCtx.PrepareStack` | reference/shiva-source/shiva_ulexec.c:454-466 | saving and rebuilding together, for all NUL-free arguments and environments and every host vector whose words stay below the strings; and the vector that the program finds behind its environment is the host's with the values at types 3, 5, 7, 9 and 31 replaced by the target's |
| `SegmentLoader.FileBytesLoaded` | reference/shiva-source/shiva_ulexec.c:278-404 | every file byte of every loadable segment ends up at base + vaddr |
| `SegmentLoader.BssExact` | reference/shiva-source/shiva_ulexec.c:355-404 | for every segment, the first and a single one included: a bss byte reads zero if and only if the segment is the last of several, or the byte is in the last file page and the file is zero there, or it is beyond that page and the first mapping, or else the memory before, shows a zero |
| `SegmentLoader.BssUntouched` | reference/shiva-source/shiva_ulexec.c:355-404 | for the target program, bss memory beyond the last file page of any other segment is left as it was |
| `SegmentLoader.MiddleBssLeft` | reference/shiva-source/shiva_ulexec.c:355-404 | a middle segment with a bss: its first bss byte shows the file, and one on the next page is not mapped |
| `SegmentLoader.SingleBssLeft` | reference/shiva-source/shiva_ulexec.c:301-350 | a single segment with a bss: the bytes behind its file part show the file |
| `SegmentLoader.FirstAtBase` | reference/shiva-source/shiva_ulexec.c:341-348 | a segment at file offset 0 has its bytes at base + vaddr, for every file and memory, if and only if its vaddr is 0 |
| `SegmentLoader.FirstMisplaced` | reference/shiva-source/shiva_ulexec.c:341-348 | a first segment at address 4096 whose byte is not there |
| `SegmentLoader.TotalCovers` | reference/shiva-source/shiva_ulexec.c:230-259 | the interpreter's total length covers its first segment |
| `SegmentLoader.Process.TotalSegmentLen` | reference/shiva-source/shiva_ulexec.c:230-259 | the end of the last segment from the first one's page |
| `SegmentLoader.Process.LoadElfBinary` | reference/shiva-source/shiva_ulexec.c:263-404 | maps every loadable segment in order and prepares the bss, for the target and for an interpreter |
| `CodePatching.RangeExact` | reference/shiva-source/shiva_trace.c:111-115 | the pages whose protection is changed are exactly those the write touches, except that an empty write inside a page counts that page |
| `CodePatching.ProtExact` | reference/shiva-source/shiva_trace.c:95-110 | the protection used is that of the first mapping that holds the address |
| `CodePatching.EmptyWriteCounts` | reference/shiva-source/shiva_trace.c:111-115 | an empty write at address 1 changes the protection of a page that it does not touch |
| `CodePatching.CrossingWriteChanges` | reference/shiva-source/shiva_trace.c:119-133 | a write across a code page and a data page makes the data page executable and read-only |
| `CodePatching.HistoryProtections` | reference/shiva-source/shiva_trace.c:119-133 | after every history protections are as they began if and only if for every touched page the last write to touch it was made with the page's own protection recorded |
| `CodePatching.AlwaysKeptExact` | reference/shiva-source/shiva_trace.c:119-133 | they are unchanged after every single write of a history if and only if each write's range had the recorded protection |
| `CodePatching.RepairedLater` | reference/shiva-source/shiva_trace.c:119-133 | a history of two trampolines at whose end protections are right although the first write's range did not have the recorded one |
| `CodePatching.TrampolineTarget` | reference/shiva-source/shiva_trace.c:554-556 | the trampoline's operand reads back as the handler's address |
| `CodePatching.TrampolineLeads` | reference/shiva-source/shiva_trace.c:201 | with 48 b8, 50 and c3 executed as mov rax, push rax and ret: whoever enters a function with the trampoline over it arrives at the handler with the stack pointer as it was, for every handler below 2^64 and every processor state |
| `CodePatching.InstalledLeads` | reference/shiva-source/shiva_trace.c:553-561 | so it is in the code after every possible installation |
| `CodePatching.ReturnsExact` | reference/shiva-source/shiva_trace.c:567-586 | the return addresses recorded are, in order, the 64-bit sums of base and return address of the call sites whose target is the function |
| `CodePatching.HistoryKeeps` | reference/shiva-source/shiva_trace.c:537-589 | over every history of trampolines in separate windows, with saved or new bytes written again in any order: the code is the original outside the windows, each window holds its original or its new bytes, and the saved bytes are the original ones |
| `CodePatching.RestoreAll` | reference/shiva-source/shiva_trace.c:554-560 | after every such history, writing back all saved bytes restores the original code |
| `CodePatching.RestoreInstalls` | reference/shiva-source/shiva_trace.c:217-218 | after n installations on one address, writing back the n saved windows in order restores the code if and only if n is at most 1 or the trampoline was there before |
| `CodePatching.RestoreInstallsBack` | reference/shiva-source/shiva_trace.c:217-218 | writing them back in the opposite order always restores it |
| `CodePatching.RegisteredTwice` | reference/shiva-source/shiva_trace.c:217-218 | a handler registered twice, whose trampoline stays |
| `CodePatching.Tracer.TraceWrite` | reference/shiva-source/shiva_trace.c:95-140 | writes exactly the bytes and sets the range to the recorded protection, or fails without change |
| `CodePatching.Tracer.InstallTrampoline` | reference/shiva-source/shiva_trace.c:537-589 | saves, patches, records the return addresses of the function's known calls and appends the breakpoint; and entering the function now leads to the handler |
| `CodePatching.Tracer.WriteVersion` | reference/shiva-source/shiva_trace.c:95-140 | writing saved or new bytes of a breakpoint is one event of a history, protections included |
| `CodePatching.Tracer.SetBreakpoint` | reference/shiva-source/shiva_trace.c:191-670 | one installation per registration of the handler, with the bytes, breakpoints and protections that gives, after which entering the function leads to the handler, and with it the condition for restoring in order; fails without a registration, or when the code cannot be written |

## Left out

- The contents of the shipped instruction table: the theorems are for every sequence of definitions; the facts used about opcode 0xE8 are the hypothesis `HasCall`, and the facts about operand sizes of rows the hypothesis `WfRows`.
- The order and kinds of operands in the shipped rows: what operands mean is proved for rows in which no operand of ModRM comes behind one in line (`OperandEncoding.RowInOrder`), as in the shipped table; the operands of a 3DNow instruction are those of entry 0x0c, as in the decoder.
- VEX and XOP definitions: their reordering and tables are not handled by this version of the decoder.
- The hexadecimal text of table keys and of opcodes: the model uses the numbers they stand for.
- The linear list of instruction forms and the mnemonic table, which the generator only prints, and all C text it writes around the numbers.
- Vendor `any`: the decoder never selects its index, and definitions with it are kept in the trie but never reached.
- The branch of `resolve_mnemonic` for a 3DNow placeholder mnemonic, which no generated row has.
- The uninitialised `curr` of the prefix loop is taken as 0.
- X87 rows read at an index outside their table: excluded, since such a table only follows `/mod=11`.
- Operand codes `rCX` and `rDX` without a case of their own in `decode_operand`: they decode to no operand, like every code the switch does not list.
- Input files; the setters for syntax, vendor and program counter, which only store a value.
- Text output: Intel and AT&T formatting and the symbol resolver. The model covers the values printed.
- Symbol lookup for call sites in the sweep: sites carry their addresses only.
- libelfmaster: sections, relocations, symbols and segments are given sequences; reading past the end of the file fails.
- mmap and mprotect failures that end the program or depend on the kernel; their address results are parameters, and a failing mprotect is taken to change nothing.
- The capacity of the hash table behind the GOT cache: insertion succeeds.
- The `.plt` pseudo-mappings of shiva_module.c:813-830, which have no offset; a relocation that names `.plt` fails in the model.
- The `gotaddr` field, computed before the data address is known and never read.
- ModuleLinker.ShivaModule.ShivaModuleLoader: opening files, the entry symbol and the transfer of control are not modelled. Stores outside the two segments, which the program does not check for and which have no defined effect, are excluded by its precondition; `ModuleLoading.WellPlacedLoads` and `ModuleLoading.GotStoresInside` say when there are none.
- ModuleLinker.ShivaModule.CreateDataImage: excludes, likewise, writable sections that do not fit in the data segment, as `ModuleLoading.PlainDataFits` shows plain ones to.
- ModuleLinker.ShivaModule.ApplyRelocation: excludes, likewise, a field outside the text segment.
- ModuleLinker.ShivaModule.RelocateModule: excludes, likewise, fields outside the text segment.
- ModuleLinker.ShivaModule.ResolvePltgotEntries: excludes, likewise, stores outside the data segment.
- Common and weak symbols: a symbol is undefined, absolute or in a section.
- Symbols and sections of a relocation that the symbol table does not have: `ModulePsabi.WellFormed` is what an assembler writes.
- SegmentLoader.Process.TotalSegmentLen: excludes fewer than two loadable segments, for which the program computes with uninitialised variables.
- SegmentLoader.Process.LoadElfBinary: excludes, likewise, an interpreter with fewer than two loadable segments.
- CodePatching.Tracer.SetBreakpoint: excludes a function that is also registered with another kind of breakpoint, since only the trampoline kind is modelled.
- Ulexec.ShivaCtx.BuildAuxvStack: excludes strings longer than the stack, for which the program writes below its mapping, and vectors that run into the strings (`UserStack.VectorRoomExact`).
- Ulexec.ShivaCtx.PrepareStack: excludes the same, and auxiliary vector types whose low half is 0, which become AT_NULL in the iterator's int (`UserStack.AsIntExact`).
- Page protections of loaded segments, and thereby a fault when the page after read-only file data is cleared.
- The CALL, INT3, SEGV, SIGILL and PLTGOT kinds of breakpoints, handlers' code, ptrace, threads and signals.
- `/proc` parsing, register save and restore, inline assembly, the interpreter-mode stack copy and the module examples.
- `shiva_ulexec_segment_copy`, which nothing calls.
