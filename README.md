# Roc surgical linker (ELF, x86-64, little endian) and parser combinators — a Dafny model

This project models the core of Roc's surgical linker for little-endian
64-bit ELF hosts, and the small parser-combinator layer of the Roc parser.
Dafny states and proves properties of the model.

The linker works in two phases.

- **Preprocessing** (`preprocess_elf` and `gen_elf_le`) makes room in the
  host executable:
  - three extra program headers;
  - a copy of `.rela.dyn` placed just before the section header table;
  - every address moved by a piecewise translation (`update_physical_offset`
    and `update_virtual_offset`).

  It also:
  - records where the host calls application functions: PLT stubs, near
    branches found by disassembly, and GOT relocations;
  - removes the JUMP_SLOT relocations of those functions;
  - drops the application's shared library from the dynamic table.
- **Surgery** (`surgery_elf_help`) copies the application's read-only
  data, zero-initialised data and code after the host. It then:
  - resolves the application's relocations, turning absolute ones into
    load-time `R_X86_64_RELATIVE` records;
  - adds two sections and two segments;
  - patches every recorded call site, every PLT stub and the symbol tables
    so that they point to the application's functions.

How the model is built:

- Byte buffers are `array<Byte>` wherever the source writes bytes in place.
  Record tables (program headers, relocations, dynamic entries, symbols)
  are arrays of records that the methods update in place.
- Each method is proved against a function on the old contents. Lemmas
  then state what that function guarantees.
- `u64` arithmetic is written out with `Wrap64` where it wraps. `as i32`
  and `to_le_bytes` are written out with `Encode`.
- Most slice panics and `internal_error!` aborts become the `Err` of a
  `Result`. The panics that are preconditions instead, or are not
  modelled, are listed under "Left out".

The files, one module each:

- `wrappers.dfy`: `Option` and `Result`.
- `bytes.dfy`: little-endian encoding and 64-bit wrap.
- `elf_types.dfy`: ELF records and constants, the linker's `Metadata`.
- `alignment.dfy`: the two alignment helpers.
- `translate.dfy`: address translation.
- `roc_symbols.dfy`: host symbol collection.
- `plt.dfy`: PLT stub addresses.
- `disassembly.dfy`: the `Surgeries` collector.
- `dynamic_deps.dfy`: the dynamic table scan, the GOT and JUMP_SLOT symbol
  lists, and the library splice.
- `preprocess.dfy`: the layout plan, the program-header rewrite and the
  file copy.
- `tables.dfy`: shifting of section headers, relocations, dynamic entries,
  symbols and the GOT.
- `jump_slots.dfy`: the RELA pass, with JUMP_SLOT removal and the section
  shrink.
- `merge_layout.dfy`: placement of the application's sections.
- `merge_relocations.dfy`: relocation resolution and the RELATIVE records.
- `merge_headers.dfy`: the new sections, segments and file header.
- `merge_patch.dfy`: call-site, PLT and symbol patching.
- `parser.dfy`: `map`, `keyword`, `satisfies`, `any`, `whitespace`.

## Model

| member | source | states |
|---|---|---|
| AddressTranslation.UpdatePhysicalOffset | crates/linker/src/elf.rs:591-604 | an offset inside the original relocation table lands at the same distance into its copy (past the header shift); any other offset moves forward by at most the header shift plus the table size |
| AddressTranslation.UpdateVirtualOffset | crates/linker/src/elf.rs:606-619 | the same two facts for virtual addresses, relative to the copy's new address |
| AddressTranslation.MovedTableLandsInCopy | crates/linker/src/elf.rs:591-619 | a position in the moved table translates into the copy's range, at its own offset within the table |
| AddressTranslation.ShiftOutsideMovedTable | crates/linker/src/elf.rs:591-619 | outside the moved table the translation adds the header shift exactly when the position is past the program headers, and the table size exactly when it is past the new table |
| AddressTranslation.RegionBounds | crates/linker/src/elf.rs:591-619 | under well-formed geometry, each of the four regions (before the headers, after them, the table, after the new table) maps into its own disjoint output interval |
| AddressTranslation.TranslateInjective | crates/linker/src/elf.rs:591-619 | under well-formed geometry, two different positions never translate to the same position |
| AddressTranslation.TranslateMonotoneWithinRegion | crates/linker/src/elf.rs:591-619 | within one region the translation keeps order |
| AddressTranslation.TranslateNotMonotone | crates/linker/src/elf.rs:591-619 | a concrete geometry where a smaller position translates past a larger one (the moved table jumps ahead of what follows it) |
| Alignment.AlignByConstraint | crates/linker/src/elf.rs:1399 | the result is a multiple of the constraint, and is the offset rounded up by less than one constraint |
| Alignment.AlignToOffsetByConstraint | crates/linker/src/elf.rs:1404-1408 | the result is congruent to the target modulo the constraint, and lies within one constraint above the current position |
| Alignment.AlignIsLeast | crates/linker/src/elf.rs:1399-1408 | both helpers return the least admissible position at or above the current one |
| LittleEndian.Wrap64 | crates/linker/src/elf.rs:1682-1686 | a `u64` result is below 2^64 and equals the value when no wrap happens |
| LittleEndian.Encode | crates/linker/src/elf.rs:1605-1613 | `to_le_bytes` of the truncated value has exactly the requested width |
| LittleEndian.Decode | crates/linker/src/elf.rs:1605-1613 | a little-endian read is below 256^width |
| LittleEndian.DecodeEncode | crates/linker/src/elf.rs:1605-1613 | reading back a written value gives the value modulo 256^width (the `as i32` truncation) |
| LittleEndian.EncodeDecode | crates/linker/src/elf.rs:1605-1613 | encoding a read value gives back the same bytes |
| LittleEndian.SignedRoundTrip | crates/linker/src/elf.rs:1605-1613 | a value in the signed range of the width survives write-then-signed-read |
| LittleEndian.UnsignedRoundTrip | crates/linker/src/elf.rs:1605-1613 | a value below 256^width survives write-then-read |
| LittleEndian.Write | crates/linker/src/elf.rs:1607-1612 | `copy_from_slice` puts the bytes at the position and leaves every other byte alone |
| ElfTypes.EncodeRela | crates/linker/src/elf.rs:1578-1590 | an `Elf64_Rela` record is 24 bytes |
| ElfTypes.RelaRoundTrip | crates/linker/src/elf.rs:1578-1590 | a record that fits its fields decodes back to itself |
| ElfTypes.AddendFieldAt16 | crates/linker/src/elf.rs:866-869 | writing 8 bytes at offset 16 of a record changes exactly its addend |
| RocSymbols.TrimLeadingUnderscores | crates/linker/src/elf.rs:126-131 | the result is the longest suffix not starting with `_`, and only underscores were removed |
| RocSymbols.BeforeAt | crates/linker/src/elf.rs:145-153 | the result is the prefix before the first `@` (the whole name when there is none) |
| RocSymbols.Lookup | crates/linker/src/elf.rs:156-167 | the libc alias table yields a name exactly when it lists the key, and then one it lists for that key |
| RocSymbols.RecordKeys | crates/linker/src/elf.rs:169-176 | one symbol adds its normalised name, and its libc alias if any, with its address; other keys keep their values |
| RocSymbols.LastRegistering | crates/linker/src/elf.rs:142-179 | finds the last symbol that registers a key |
| RocSymbols.CollectedKeys | crates/linker/src/elf.rs:142-179 | a key is collected iff some roc definition registers it, and it maps to the address of the last such definition |
| RocSymbols.BeforeAtKeepsPrefix | crates/linker/src/elf.rs:145-153 | cutting at `@` keeps a `roc_` prefix |
| RocSymbols.CollectedKeyShape | crates/linker/src/elf.rs:142-179 | every collected key is a `roc_` name without `@`, or one of the six libc aliases |
| Plt.JumpSlotCount | crates/linker/src/elf.rs:441-454 | counts the JUMP_SLOT relocations, at most all of them |
| Plt.FirstMatch | crates/linker/src/elf.rs:455-456 | finds the first application symbol whose index the relocation targets, and finds one iff one exists |
| Plt.CollectPltAddresses | crates/linker/src/elf.rs:409-467 | fails iff `.plt` is missing or compressed or there are no dynamic relocations; otherwise returns the two tables of the stub loop |
| Plt.ScanJumpSlots | crates/linker/src/elf.rs:454-467 | the relocation loop builds exactly the two tables of the stub specification |
| Plt.FindAppSymbol | crates/linker/src/elf.rs:455-456 | the search loop finds the first application symbol the relocation targets, and nothing when there is none |
| Plt.JumpSlotCountGrows | crates/linker/src/elf.rs:454-458 | a JUMP_SLOT at position k has fewer JUMP_SLOTs before it than in the whole list, so stub numbers are distinct |
| Plt.TablesAddresses | crates/linker/src/elf.rs:454-467 | every recorded stub address is the (n+1)-th 16-byte stub past `.plt` for some JUMP_SLOT number n |
| Plt.SlotAddressNamesSymbol | crates/linker/src/elf.rs:454-467 | the stub of every JUMP_SLOT that targets an application symbol is recorded with that symbol's name |
| Plt.AddressOwner | crates/linker/src/elf.rs:454-467 | every recorded stub address is the stub of a JUMP_SLOT relocation that targets an application symbol, and names that symbol |
| Plt.OwnerOfAddress | crates/linker/src/elf.rs:454-467 | returns the JUMP_SLOT relocation that owns a recorded stub address: it targets an application symbol of the recorded name, and its JUMP_SLOT number gives the address |
| Plt.NameLastOwner | crates/linker/src/elf.rs:454-467 | a recorded name holds the stub offset and address of the last JUMP_SLOT relocation that targets it, since a later insert overwrites an earlier one |
| Plt.LastOwnerOfName | crates/linker/src/elf.rs:454-467 | returns the last JUMP_SLOT relocation that targets a recorded name, whose stub offset and address the name holds |
| Plt.TablesAgree | crates/linker/src/elf.rs:457-465 | name-to-(offset, address) and address-to-name agree, and file offset and address name the same stub |
| Plt.TablesKeys | crates/linker/src/elf.rs:454-467 | a name has a stub iff some JUMP_SLOT targets an application symbol of that name |
| Disassembly.OperandSize | crates/linker/src/elf.rs:290-301 | a near-branch operand is 1, 2 or 4 bytes wide, and only an unknown operand kind has no size |
| Disassembly.TextSections | crates/linker/src/elf.rs:210-213 | exactly the text sections, each taken from the input |
| Disassembly.Surgeries.constructor | crates/linker/src/elf.rs:188-203 | every application symbol starts with an empty surgery list, and no other name has one |
| Disassembly.Surgeries.AppendTextSection | crates/linker/src/elf.rs:236-349 | the method succeeds iff the section scan does, and then the surgery table is the one that scan computes |
| Disassembly.Surgeries.AppendTextSections | crates/linker/src/elf.rs:205-234 | fails when there is no text section; otherwise succeeds iff scanning all text sections in order does, with that result |
| Disassembly.ScanSectionsErrSticks | crates/linker/src/elf.rs:231-233 | a failing section makes the whole pass fail |
| Disassembly.ScanErrSticks | crates/linker/src/elf.rs:262-348 | a failing instruction makes the whole section fail |
| Disassembly.ScanOkIff | crates/linker/src/elf.rs:262-348 | a section scan succeeds iff no instruction in it is fatal |
| Disassembly.ScanKeepsKeys | crates/linker/src/elf.rs:262-348 | a successful section scan keeps exactly the names of the surgery table |
| Disassembly.ScanAppendsSites | crates/linker/src/elf.rs:262-348 | a successful section scan extends each name's list by the sites of its instructions, in order, keeping the old list in front |
| Disassembly.Surgeries.VisitInstruction | crates/linker/src/elf.rs:263-346 | one decoded instruction succeeds iff one step of the scan does, and then the table is that step's result |
| Disassembly.StepSpec | crates/linker/src/elf.rs:270-346 | one instruction fails exactly when it is fatal, and otherwise keeps every name and extends each list by that instruction's site, if any |
| Disassembly.ScanSpec | crates/linker/src/elf.rs:262-348 | a section scan succeeds iff no instruction is fatal (compressed hit, unknown operand kind, far branch, undecodable); then each name's list grows by exactly the sites of the branches to that name's function, in order |
| Disassembly.SitesEndAtNextInstruction | crates/linker/src/elf.rs:302-320 | every recorded site is 1, 2 or 4 bytes, comes from a near branch to that function, is relative to the next instruction, and ends in the file where that instruction starts |
| DynamicDeps.CStr | crates/linker/src/elf.rs:1129-1130 | a C string is the bytes before the first NUL; without a NUL there is none |
| DynamicDeps.Split | crates/linker/src/elf.rs:1131 | splitting a path at `/` yields components without `/` |
| DynamicDeps.Components | crates/linker/src/elf.rs:1131 | the normalised components are non-empty and none is `.` |
| DynamicDeps.FileName | crates/linker/src/elf.rs:1131 | `Path::file_name` is a non-empty, slash-free component other than `.` and `..` |
| DynamicDeps.ReadEntry | crates/linker/src/elf.rs:1113-1128 | an entry is unreadable iff its bytes or name run out; otherwise it is the terminator iff its tag is 0, and a library iff its tag is 1, with the name its value points at |
| DynamicDeps.ScanDynamicTable | crates/linker/src/elf.rs:1110-1149 | on success the table is terminated at the returned count and the library is named at the returned index, the last one so named; failure means no entry before any terminator names it |
| DynamicDeps.NoTerminatorPast | crates/linker/src/elf.rs:1112-1118 | once an entry is unreadable before any terminator, no terminator exists |
| DynamicDeps.TerminatorUnique | crates/linker/src/elf.rs:1119-1120 | the table length is determined: only one count terminates it |
| DynamicDeps.LastNamedSpec | crates/linker/src/elf.rs:1131-1133 | the index the walk keeps names the library with no later entry naming it, and none is kept only when no entry names it |
| DynamicDeps.GotAppSyms | crates/linker/src/elf.rs:1208-1225 | at most one entry per relocation |
| DynamicDeps.AppSymIndices | crates/linker/src/elf.rs:1227-1244 | at most one index per relocation |
| DynamicDeps.GotAppSymsSpec | crates/linker/src/elf.rs:1208-1225 | a (name, index) pair is listed iff some GLOB_DAT relocation targets that application symbol (the first match) |
| DynamicDeps.AppSymIndicesSpec | crates/linker/src/elf.rs:1227-1244 | an index is listed iff some JUMP_SLOT relocation targets that application symbol |
| DynamicDeps.SpliceOutLibrary | crates/linker/src/elf.rs:1041-1050 | the entries after the library (terminator included) move down by one entry; the count drops by one |
| DynamicDeps.SplicedEntry | crates/linker/src/elf.rs:1041-1050 | after the splice an entry holds the tag and value of itself (before the library) or of its successor (from the library on) |
| DynamicDeps.SplicedTable | crates/linker/src/elf.rs:1041-1050 | after the splice the table is terminated one entry earlier; earlier tags are kept and later ones come from the next entry, with their names |
| Preprocess.PhShiftBytes | crates/linker/src/elf.rs:670-673 | the header shift is a multiple of 0x40 strictly above three headers' size, by at most 0x40 |
| Preprocess.PhShiftBytesLeast | crates/linker/src/elf.rs:670-673 | it is the least such multiple |
| Preprocess.LastTagged | crates/linker/src/elf.rs:651-666 | finds the last dynamic entry with a tag |
| Preprocess.FindRela | crates/linker/src/elf.rs:651-666 | the loop keeps the value of the last DT_RELA and the last DT_RELASZ, or the defaults |
| Preprocess.TaggedValueIsLast | crates/linker/src/elf.rs:651-666 | the value found is that of the last entry with the tag |
| Preprocess.LastLoadAtZero | crates/linker/src/elf.rs:697-705 | finds the last PT_LOAD at file offset 0 |
| Preprocess.LastMapping | crates/linker/src/elf.rs:706-713 | finds the last PT_LOAD whose file range holds a virtual address's image |
| Preprocess.RelaPaddrInSegment | crates/linker/src/elf.rs:706-713 | the corrected file offset of the relocation table lies in a segment that maps its address, at the same distance from the segment start |
| Preprocess.RelaPaddrAsWritten | crates/linker/src/elf.rs:706-713 | as written, the result is the default or the address minus some load segment's shift |
| Preprocess.RelaPaddrAsWrittenMisses | crates/linker/src/elf.rs:706-713 | a two-segment host where the as-written search returns 0x201400, not the table's offset 0x1400 |
| Preprocess.LastSegmentEnd | crates/linker/src/elf.rs:725-737 | the largest end address of the segments other than PT_GNU_STACK, none iff there are only such segments |
| Preprocess.ScanSegments | crates/linker/src/elf.rs:697-717 | fails iff no PT_LOAD starts at offset 0; otherwise yields that segment's alignment, the virtual shift start, and the table's file offset, taken from the segment that maps the table's address (the corrected search of the first "Findings" row) |
| Preprocess.NullSlotHasEnd | crates/linker/src/elf.rs:692-737 | the zeroed extra header slot guarantees a last segment end (the `unwrap` cannot fail) |
| Preprocess.NewRelaVaddr | crates/linker/src/elf.rs:739-742 | the copy's address is congruent to its file offset and at least one alignment past every segment's end |
| Preprocess.Plan | crates/linker/src/elf.rs:651-775 | fails iff the host has no load at offset 0; otherwise fills the metadata fields from the table, the headers and the segments, with the corrected file offset of the table |
| Preprocess.RewriteProgramHeaders | crates/linker/src/elf.rs:744-773 | every header is shifted and the extra slot becomes the segment of the relocation copy |
| Preprocess.ShiftSegmentGrows | crates/linker/src/elf.rs:748-751 | the first load and PT_PHDR keep their place and grow by the header shift |
| Preprocess.ShiftSegmentKeepsMapping | crates/linker/src/elf.rs:752-760 | another segment keeps its address-to-offset distance, its sizes and its alignment |
| Preprocess.RelaSegmentCongruent | crates/linker/src/elf.rs:763-773 | the copy's segment has address congruent to offset modulo its alignment |
| Preprocess.LayOut | crates/linker/src/elf.rs:688-797 | the new file has the planned length and is, byte for byte, the host's head, a zeroed room for the headers, the rest up to the section headers, the relocation copy and the section headers on |
| Preprocess.LaidOutTranslates | crates/linker/src/elf.rs:688-797 | every host byte lands at its translated file offset, the header room is zero, and the copy at the new offset holds the original relocation table |
| Preprocess.CopyIn | crates/linker/src/elf.rs:690 | `copy_from_slice` puts the bytes at the position and changes nothing else |
| Preprocess.CopyPieces | crates/linker/src/elf.rs:690-797 | the four copies into the zero-filled file produce the four pieces at their places |
| Preprocess.CopiesAssemble | crates/linker/src/elf.rs:776-797 | the four successive copies, which never overlap, give the byte-wise layout |
| ShiftTables.ShiftSectionHeaders | crates/linker/src/elf.rs:799-822 | every section header is shifted; the REL and RELA sections are listed |
| ShiftTables.RelSections | crates/linker/src/elf.rs:815-818 | lists (offset, size) of REL sections only |
| ShiftTables.RelaSectionsSound | crates/linker/src/elf.rs:819-821 | every listed entry is a RELA section of the table, with its index, offset and size |
| ShiftTables.RelaSectionsOrdered | crates/linker/src/elf.rs:819-821 | the list is in increasing index order |
| ShiftTables.RelaSectionsComplete | crates/linker/src/elf.rs:819-821 | every RELA section of the table is listed |
| ShiftTables.ShiftRels | crates/linker/src/elf.rs:824-835 | every REL record's offset is translated |
| ShiftTables.ShiftDynamic | crates/linker/src/elf.rs:965-1009 | exactly the address-holding tags get a translated value; all other entries are unchanged |
| ShiftTables.ShiftDynamicTable | crates/linker/src/elf.rs:965-1009 | every dynamic entry is shifted |
| ShiftTables.DynamicRelaNamesCopy | crates/linker/src/elf.rs:965-1009 | after the shift DT_RELA names the segment of the relocation copy, and DT_RELASZ is unchanged |
| ShiftTables.ShiftSymbols | crates/linker/src/elf.rs:1011-1024 | every symbol value is translated as an address |
| ShiftTables.ShiftGotEntry | crates/linker/src/elf.rs:1026-1037 | the corrected GOT entry (an address) never moves backwards outside the table |
| ShiftTables.ShiftGot | crates/linker/src/elf.rs:1026-1037 | every GOT entry is translated as an address (the corrected translation of the third "Findings" row) |
| ShiftTables.ShiftGotEntryAsWrittenMisses | crates/linker/src/elf.rs:1026-1037 | a layout where translating a GOT address as a file offset gives 0x4126 instead of 0x40f6 |
| ShiftTables.UpdatedHeaderFits | crates/linker/src/elf.rs:1052-1063 | with three more program headers the header table still ends inside the shift gap, and the section header table moves by the shift plus the table size |
| JumpSlots.MovedAddend | crates/linker/src/elf.rs:853-857 | the `as i64` addend is in range and equals the translated addend when that fits |
| JumpSlots.RewriteRela | crates/linker/src/elf.rs:848-875 | the offset is translated; a GLOB_DAT record of an application symbol becomes RELATIVE with symbol 0; other records keep type and symbol; only RELATIVE addends change |
| JumpSlots.AddendSite | crates/linker/src/elf.rs:866-869 | the addend field lies inside record i of the section |
| JumpSlots.MatchesPositive | crates/linker/src/elf.rs:863-865 | the count of GOT entries of a name for a symbol is non-zero iff one exists |
| JumpSlots.PushGot | crates/linker/src/elf.rs:861-875 | each name's list grows by one absolute 8-byte site per matching GOT entry; the keys stay |
| JumpSlots.GotSurgeries | crates/linker/src/elf.rs:842-877 | the surgery table keeps its keys |
| JumpSlots.GotSurgeriesSound | crates/linker/src/elf.rs:859-875 | old sites stay in front, and every added site comes from a GLOB_DAT record of an application symbol of that name |
| JumpSlots.GotSurgeriesComplete | crates/linker/src/elf.rs:859-875 | every such GLOB_DAT record adds its site to the name's list |
| JumpSlots.PushGotSites | crates/linker/src/elf.rs:863-875 | the inner loop computes `PushGot`, and reports whether any entry matched |
| JumpSlots.AnyNamedExists | crates/linker/src/elf.rs:863-864 | the inner loop's match flag is set iff some GOT entry's truncated index is the record's symbol |
| JumpSlots.RewriteRecord | crates/linker/src/elf.rs:848-876 | one record is rewritten as `RewriteRela` says, and only a GLOB_DAT record records patch sites |
| JumpSlots.RewriteRelocations | crates/linker/src/elf.rs:842-877 | every record is rewritten in place and the surgeries are those of the whole table |
| JumpSlots.RewrittenAt | crates/linker/src/elf.rs:842-877 | record i of the rewritten table is record i rewritten on its own |
| JumpSlots.RemovalOrder | crates/linker/src/elf.rs:884-901 | indices of application JUMP_SLOTs, strictly descending, leaving room for the swap targets |
| JumpSlots.Kept | crates/linker/src/elf.rs:884-898 | the records that are not removed |
| JumpSlots.RemovalOrderComplete | crates/linker/src/elf.rs:884-898 | every application JUMP_SLOT is listed for removal |
| JumpSlots.KeptHasNoAppSlot | crates/linker/src/elf.rs:884-898 | no kept record is an application JUMP_SLOT |
| JumpSlots.SwapOut | crates/linker/src/elf.rs:903-909 | one swap-and-neutralise step keeps the length |
| JumpSlots.Removed | crates/linker/src/elf.rs:903-909 | the table after all steps has its length |
| JumpSlots.RemovedPositions | crates/linker/src/elf.rs:903-909 | entries below the smallest removed index are unchanged; the u-th slot from the end holds the u-th removed record, neutralised |
| JumpSlots.RemovedKeepsRecords | crates/linker/src/elf.rs:903-909 | the head of the table plus the removed records are the original records, as a multiset |
| JumpSlots.KeptAndPicked | crates/linker/src/elf.rs:884-909 | kept plus removed records are the original records, as a multiset |
| JumpSlots.RemovalHeadIsKept | crates/linker/src/elf.rs:884-909 | the shrunk table holds exactly the kept records, as a multiset |
| JumpSlots.RemovalHeadClean | crates/linker/src/elf.rs:884-909 | no record left in the shrunk table is an application JUMP_SLOT |
| JumpSlots.RemovalTail | crates/linker/src/elf.rs:903-909 | every slot past the shrunk table is an R_X86_64_NONE copy of a removed record |
| JumpSlots.RemovalReorders | crates/linker/src/elf.rs:899-909 | a table where removal changes the order of the kept records |
| JumpSlots.CollectRemovals | crates/linker/src/elf.rs:884-901 | the collection loop computes the removal order |
| JumpSlots.SwapOutAt | crates/linker/src/elf.rs:904-906 | one step of the swap loop swaps the two records and neutralizes the one moved to the tail |
| JumpSlots.RemoveAppJumpSlots | crates/linker/src/elf.rs:899-909 | the swap loop leaves the removed table and returns how many were removed |
| JumpSlots.ShrinkDynamic | crates/linker/src/elf.rs:947-961 | only DT_RELASZ (for `.rela.dyn`) or DT_PLTRELSZ (for `.rela.plt`) shrinks, by the removed size with `u64` wrap |
| JumpSlots.AnyNames | crates/linker/src/elf.rs:929-945 | tells whether some entry with a tag holds the section's file offset |
| JumpSlots.ShrinkSection | crates/linker/src/elf.rs:911-962 | the section size shrinks, the dynamic entries shrink, and `.rela.dyn` records its index |
| JumpSlots.ShrunkSizesAgree | crates/linker/src/elf.rs:947-961 | when DT_RELASZ held n records, after removing k it holds n−k, with no wrap |
| JumpSlots.ProcessRelaSection | crates/linker/src/elf.rs:842-962 | one RELA section: rewritten, app JUMP_SLOTs removed, sizes shrunk, surgeries and index recorded |
| MergeLayout.Select | crates/linker/src/elf.rs:1422-1441 | picks the sections of a group (rodata or `.rel.ro`, `.bss`, `.text`) from the input |
| MergeLayout.SelectComplete | crates/linker/src/elf.rs:1422-1441 | every section of the group is picked |
| MergeLayout.PlaceAt | crates/linker/src/elf.rs:1459-1461 | a section starts 0x40-aligned in the file, with its address congruent to its offset, each within one alignment of the cursor |
| MergeLayout.Advance | crates/linker/src/elf.rs:1483-1493 | `.bss` grows only the address; another section grows both by its size; a non-bss section whose file size differs from its size is an error |
| MergeLayout.RecordSymbol | crates/linker/src/elf.rs:1471-1481 | a symbol outside the section changes nothing, and section offsets never change |
| MergeLayout.RecordSymbols | crates/linker/src/elf.rs:1471-1482 | the symbol loop keeps the section offsets |
| MergeLayout.PlaceSectionsErrSticks | crates/linker/src/elf.rs:1454-1494 | a failing section makes the placement fail |
| MergeLayout.RecordSectionSymbols | crates/linker/src/elf.rs:1471-1482 | the symbol loop computes `RecordSymbols` |
| MergeLayout.PlaceAll | crates/linker/src/elf.rs:1454-1494 | the placement loop succeeds iff the placement does, with its result |
| MergeLayout.PlaceOneSection | crates/linker/src/elf.rs:1455-1493 | one pass of the placement loop places one section exactly as the placement specification does |
| MergeLayout.SectionsRecorded | crates/linker/src/elf.rs:1454-1494 | after a successful placement every placed section's index is recorded with an offset |
| MergeLayout.CodePlaced | crates/linker/src/elf.rs:1502-1506 | every text section has a recorded offset, so the minimum over them is defined |
| MergeLayout.PlacementGeometry | crates/linker/src/elf.rs:1454-1494 | every section is placed 0x40-aligned and congruent, between the start and the end cursor, which only move forward |
| MergeLayout.RecordSymbolsSound | crates/linker/src/elf.rs:1471-1482 | recording keeps: no host-defined symbol gets an application address |
| MergeLayout.HostDefinitionsWin | crates/linker/src/elf.rs:1471-1482 | after placement no symbol that the host defines has an application address |
| MergeLayout.MinPair | crates/linker/src/elf.rs:1502-1506 | the lexicographically least (offset, address) pair of the list |
| MergeLayout.Placements | crates/linker/src/elf.rs:1502-1506 | one pair per text section |
| MergeLayout.DataStart | crates/linker/src/elf.rs:1395-1408 | the data starts 0x40-aligned past room for every absolute relocation, at an address congruent to it and past the host's last address |
| MergeLayout.LayOutApp | crates/linker/src/elf.rs:1395-1508 | fails iff there is no text section or placement fails ("No text sections found…"); otherwise the layout is that placement with the code at the least text placement |
| MergeLayout.LaidGeometry | crates/linker/src/elf.rs:1395-1508 | rodata ≤ code ≤ end in the file and in memory, the code is 0x40-aligned, and both starts are congruent |
| MergeRelocations.SymbolByIndex | crates/linker/src/elf.rs:1549-1552 | finds the symbol with an index, none iff none has it |
| MergeRelocations.TargetAddress | crates/linker/src/elf.rs:1541-1566 | an application symbol's own address wins; otherwise the host's translated export; none iff neither exists |
| MergeRelocations.HostDefinitionResolves | crates/linker/src/elf.rs:1541-1566 | after placement a host-defined symbol resolves to its translated host address |
| MergeRelocations.WriteAt | crates/linker/src/elf.rs:1526 | a slice copy succeeds iff it fits, and then writes exactly its bytes |
| MergeRelocations.RelativeRecord | crates/linker/src/elf.rs:1584-1590 | an added record is `R_X86_64_RELATIVE` with symbol 0 |
| MergeRelocations.ApplyRelocation | crates/linker/src/elf.rs:1538-1637 | one relocation keeps the file length, counts a record iff it emits one, and changes only its field (the site, or the record slot) |
| MergeRelocations.Relocate | crates/linker/src/elf.rs:1569-1617 | a relocation with a resolved target keeps the file length, counts a record iff it is absolute, and changes only its field |
| MergeRelocations.PatchField | crates/linker/src/elf.rs:1605-1616 | the site write succeeds iff the width is 32 or 64 bits and the field fits, and then writes the value's little-endian bytes of that width |
| MergeRelocations.PatchFieldRoundTrip | crates/linker/src/elf.rs:1605-1613 | a patched field read back signed is the value whenever the value fits the width |
| MergeRelocations.RelocatedRelative | crates/linker/src/elf.rs:1572-1613 | with a resolved target, the relative field read back signed and added to its site gives the target plus addend |
| MergeRelocations.RelocatedAbsolute | crates/linker/src/elf.rs:1575-1591 | with a resolved target, the absolute relocation's slot decodes to RELATIVE at its site with the target plus addend |
| MergeRelocations.RelativeRoundTrip | crates/linker/src/elf.rs:1571-1614 | a relative relocation's written value, read back signed, added to its site gives the target plus addend |
| MergeRelocations.AbsoluteRoundTrip | crates/linker/src/elf.rs:1575-1591 | an absolute relocation's slot decodes to RELATIVE at its site with the target plus addend |
| MergeRelocations.Emitted | crates/linker/src/elf.rs:1575-1591 | records emitted by a section are at most its absolute relocations |
| MergeRelocations.ApplyRelocations | crates/linker/src/elf.rs:1538-1640 | the relocation loop keeps the length and adds the emitted count |
| MergeRelocations.ApplyRelocationsErrSticks | crates/linker/src/elf.rs:1538-1640 | a failing relocation makes the section fail |
| MergeRelocations.ResolveSection | crates/linker/src/elf.rs:1516-1640 | the section's data fits at its offset; without relocations it is copied there; the length is kept; the count grows by the emitted records |
| MergeRelocations.EmittedIn | crates/linker/src/elf.rs:1511-1641 | emitted records over all sections are at most their absolute relocations |
| MergeRelocations.ResolveSections | crates/linker/src/elf.rs:1511-1641 | the section loop keeps the length and counts all emitted records |
| MergeRelocations.ResolveSectionsErrSticks | crates/linker/src/elf.rs:1511-1641 | a failing section makes the pass fail |
| MergeRelocations.RecordsFitRoom | crates/linker/src/elf.rs:1395-1399 | every added record lies past the old table and before the application's data |
| MergeRelocations.RecordInRelaSegment | crates/linker/src/elf.rs:1578-1583 | the slot of record i is in the relocation copy's segment grown by the added records |
| MergeRelocations.WriteBytes | crates/linker/src/elf.rs:1526 | the byte loop performs `Write` |
| MergeRelocations.ResolveRelocation | crates/linker/src/elf.rs:1538-1637 | the in-place relocation fails iff `ApplyRelocation` does, and otherwise leaves its bytes and count |
| MergeRelocations.RelocateAt | crates/linker/src/elf.rs:1569-1617 | the in-place write of a resolved relocation fails iff `Relocate` does, and otherwise leaves its bytes and count |
| MergeRelocations.ResolveSectionRelocations | crates/linker/src/elf.rs:1538-1640 | the in-place relocation loop agrees with `ApplyRelocations` |
| MergeRelocations.ResolveAllSections | crates/linker/src/elf.rs:1511-1641 | the in-place section loop agrees with `ResolveSections` from count 0 |
| MergeRelocations.BumpRela | crates/linker/src/elf.rs:1643-1656 | only DT_RELASZ and DT_RELACOUNT change |
| MergeRelocations.BumpCoversRecords | crates/linker/src/elf.rs:1643-1656 | the bumped DT_RELASZ covers every added record, and DT_RELACOUNT grows by the count |
| MergeRelocations.BumpRelaEntries | crates/linker/src/elf.rs:1643-1656 | every dynamic entry is bumped |
| MergeHeaders.NewShOffset | crates/linker/src/elf.rs:1658-1659 | the section header table goes 0x40-aligned past the data |
| MergeHeaders.CopySectionHeaders | crates/linker/src/elf.rs:1658-1661 | the copy succeeds iff it fits, writes the table at its new offset, and keeps all application data before it |
| MergeHeaders.TextSegment | crates/linker/src/elf.rs:1765-1776 | the code segment starts at the placed code's offset and at the address the code was placed at, not the as-written address of elf.rs:1685 |
| MergeHeaders.NewSegmentsMapLayout | crates/linker/src/elf.rs:1680-1776 | the data segment ends where the code begins in the file and in memory, the code runs to the section header table, and both are congruent |
| MergeHeaders.TextVaddrAsWrittenMisses | crates/linker/src/elf.rs:1685 | for any layout of the example (a `.rodata`, a `.bss` and a `.text` section of 0x40, 0x10 and 0x20 bytes, pages of 0x1000, host ending at 0x9000), the as-written code address 0x9040 falls inside the data segment's memory, while the code is at 0xa040 |
| MergeHeaders.ExampleLays | crates/linker/src/elf.rs:1395-1508 | the layout pass succeeds on the example of the finding |
| MergeHeaders.ExampleLaid | crates/linker/src/elf.rs:1395-1508 | any layout of the example puts the data at 0x5000 / 0x9000 and the code at 0x5040 / 0xa040 |
| MergeHeaders.AddSections | crates/linker/src/elf.rs:1688-1720 | the relocation section grows, the last two headers are the new data and code sections, the code section at the placed code address, and nothing else changes |
| MergeHeaders.AddSegments | crates/linker/src/elf.rs:1735-1776 | the copy's segment grows, the last two are the new data and code segments, the code segment being `TextSegment`, and nothing else changes |
| MergeHeaders.GrownRelaSegmentCoversRecords | crates/linker/src/elf.rs:1735-1743 | the grown segment ends exactly past the last added record |
| MergeHeaders.MergedFileHeader | crates/linker/src/elf.rs:1722-1726 | the file header names the new table, counts two more sections (`u16`), and keeps the rest |
| MergePatch.ApplySurgery | crates/linker/src/elf.rs:1796-1826 | a surgery succeeds iff the site is 4 or 8 bytes wide and fits; it then writes at the site the distance from the site's base to the function, truncated to the width (`as i32` for four bytes), and changes nothing else |
| MergePatch.SurgeryRoundTrip | crates/linker/src/elf.rs:1796-1826 | the patched site, read back signed and added to its base, gives the function's address |
| MergePatch.ApplySurgeries | crates/linker/src/elf.rs:1794-1827 | the surgery loop keeps the length and succeeds only if every site is 4 or 8 bytes and fits |
| MergePatch.ApplySurgeriesWrites | crates/linker/src/elf.rs:1794-1827 | the surgery loop is the writes of each site's bytes at its place, in order |
| MergePatch.WriteAllAt | crates/linker/src/elf.rs:1794-1827 | after writes that do not overlap, each written range holds its own bytes |
| MergePatch.PatchesDisjoint | crates/linker/src/elf.rs:1794-1827 | sites that do not overlap give writes that do not overlap |
| MergePatch.SurgeriesPlaceTargets | crates/linker/src/elf.rs:1794-1827 | after the loop over sites that do not overlap, every site holds the truncated distance from its base to the function |
| MergePatch.ApplySurgeriesErrSticks | crates/linker/src/elf.rs:1794-1827 | a failing surgery makes the loop fail |
| MergePatch.PltStub | crates/linker/src/elf.rs:1831-1843 | a 16-byte stub: `jmp rel32`, then NOPs |
| MergePatch.PltStubJumps | crates/linker/src/elf.rs:1831-1843 | the stub's jump lands on the function |
| MergePatch.PatchPlt | crates/linker/src/elf.rs:1829-1844 | a function without a stub changes nothing; otherwise the stub is written at its translated offset |
| MergePatch.TextSectionIndexNamesText | crates/linker/src/elf.rs:1766 | the corrected index names the new code section header |
| MergePatch.TextSectionIndexAsWrittenMisses | crates/linker/src/elf.rs:1766 | a host where the as-written index 12 is one of the host's sections, while the code section is 31 |
| MergePatch.DefineSymbol | crates/linker/src/elf.rs:1852-1860 | the symbol keeps its name and gets a `u16` section index |
| MergePatch.DefineIn | crates/linker/src/elf.rs:1846-1861 | a function without a symbol changes nothing; otherwise exactly its entry is redefined, and a missing size is an error |
| MergePatch.PatchFunction | crates/linker/src/elf.rs:1782-1878 | succeeds only for a placed function; then its PLT stub jumps to it and its dynamic and static symbols are defined, with all lengths kept |
| MergePatch.PatchFunctions | crates/linker/src/elf.rs:1782-1879 | the function loop succeeds only if every function was placed, keeping all lengths |
| MergePatch.PatchFunctionsErrSticks | crates/linker/src/elf.rs:1782-1879 | a failing function makes the loop fail |
| MergePatch.PatchSite | crates/linker/src/elf.rs:1800-1825 | the in-place surgery agrees with `ApplySurgery` |
| MergePatch.PatchSites | crates/linker/src/elf.rs:1794-1827 | the in-place surgery loop agrees with `ApplySurgeries` |
| MergePatch.WriteStub | crates/linker/src/elf.rs:1841-1845 | the byte writes and the NOP loop perform `Write` of the stub |
| MergePatch.FillNops | crates/linker/src/elf.rs:1843-1845 | the no-op loop writes exactly `n` no-op bytes at the position and changes nothing else |
| MergePatch.Nops | crates/linker/src/elf.rs:1843-1845 | `n` bytes, each the one-byte no-op |
| MergePatch.WriteAdjacent | crates/linker/src/elf.rs:1841-1845 | the opcode, displacement and no-op writes, being adjacent, amount to one write of the whole stub |
| MergePatch.PatchStub | crates/linker/src/elf.rs:1829-1844 | the in-place stub patch agrees with `PatchPlt` |
| MergePatch.DefineInPlace | crates/linker/src/elf.rs:1846-1861 | the in-place symbol update agrees with `DefineIn` |
| MergePatch.PatchAll | crates/linker/src/elf.rs:1778-1879 | the in-place function loop agrees with `PatchFunctions`, defining the functions in the new code section (the corrected index of the second "Findings" row) |
| Parser.Utf8Len | src/parser.rs:268 | a character takes 1 to 4 bytes |
| Parser.ByteLen | src/parser.rs:231-233 | a string's byte length is between its length and four times it |
| Parser.ByteLenConcat | src/parser.rs:231-233 | byte length adds over concatenation |
| Parser.AddU32 | src/parser.rs:237 | a `u32` column addition is congruent to the sum modulo 2^32 |
| Parser.Map | src/parser.rs:211-220 | succeeds iff the parser does, with the same next state and the transformed output; a failure is passed through |
| Parser.Keyword | src/parser.rs:223-245 | succeeds iff the input starts with the keyword; then it consumes exactly it and advances the column by its byte length; a failure returns the state unchanged |
| Parser.Satisfies | src/parser.rs:247-261 | succeeds iff the parser succeeds with an output meeting the predicate, and then returns that result; otherwise fails at the original state |
| Parser.Any | src/parser.rs:263-284 | fails iff the input is empty; otherwise consumes one character; a newline bumps the line and resets the column, any other character changes nothing else |
| Parser.WhitespaceSpec | src/parser.rs:286-288 | succeeds iff the next character is whitespace, as `any` does; otherwise fails at the original state |
| Parser.WhitespaceNewline | src/parser.rs:286-288 | a newline is whitespace and moves to the next line |
| Parser.MapIdentity | src/parser.rs:211-220 | mapping the identity changes nothing |
| Parser.MapCompose | src/parser.rs:211-220 | two maps are one map of the composed transform |
| Parser.SatisfiesBoth | src/parser.rs:247-261 | two filters are one filter of the conjunction |
| Parser.KeywordSequence | src/parser.rs:223-245 | two keywords in a row succeed iff their concatenation does, reaching the same state |
| Parser.ColumnWrap | src/parser.rs:237 | two column additions equal one of the sum |

## Where the code and its documented design differ

In these places the model follows the code. For the four defects under
"Findings" it uses the corrected value instead; each member that does so
is listed under "Left out".

- The JUMP_SLOT removal swaps each removed record with the current tail
  (elf.rs:903-909). This does not keep the relative order of the kept
  records. `JumpSlots.RemovalReorders` exhibits it. What is kept is the
  multiset of records (`JumpSlots.RemovalHeadIsKept`).
- Address translation is not monotone: the copied relocation table jumps
  ahead of the data that followed the section header table
  (`AddressTranslation.TranslateNotMonotone`). It is injective under
  well-formed geometry (`AddressTranslation.TranslateInjective`).
- `any` (src/parser.rs:263-284) leaves the column alone for characters
  other than newline. Only `keyword` advances it.
- `is_rela_dyn` and `is_rela_plt` (elf.rs:929-945) compare DT_RELA and
  DT_JMPREL, which hold addresses, with the section's file offset.
  `JumpSlots.AnyNames` models that comparison as written.

## Left out

- File I/O is left out: `mmap`, `flush`, `flush_async_range`, removing the old preprocessed file, metadata serialisation, timing and every `println!`.
- The `object` and `iced_x86` crates are left out. Parsed sections, symbols, relocations and decoded instructions are inputs (datatypes) of the model.
- The typed views of the one output file (`load_structs_inplace_mut`) are separate arrays, and the byte buffer is another. Aliasing between them is not captured. Their consistency with the bytes is not modelled, apart from the `Elf64_Rela` encoding (`ElfTypes.RelaRoundTrip`).
- `JumpSlots.ProcessRelaSection` models one RELA section. Running it over every RELA section in turn is not modelled, because each pass re-creates typed views of the same file.
- `JumpSlots.RemoveAppJumpSlots` models `relocations.len() - 1` and `j -= 1` on an empty table as in a release build, with no underflow panic. With no records there is nothing to remove.
- JumpSlots.RewriteRela: `assert!(r_addend >= 0)` (elf.rs:855) is a precondition rather than a panic path.
- Out-of-range table indices are preconditions rather than panics:
  - MergeHeaders.AddSections: `rela_section_index` must be below the section count.
  - MergeHeaders.AddSegments: there must be at least three program headers.
- DynamicDeps.GotAppSyms and DynamicDeps.AppSymIndices take the dynamic relocations as a list. A missing relocation table (elf.rs:1208-1213, 1227-1232) is the same condition that `Plt.CollectPltAddresses` reports as an error.
- The application function list and the dynamic and static symbol index maps (elf.rs:469-477) are `Metadata` inputs. The loops that fill them are not modelled.
- The big-endian and 32-bit paths are left out. Only `gen_elf_le` and the little-endian, 64-bit surgery exist in the source.
- crates/linker/src/lib.rs is not part of this model. The alignment helpers `align_by_constraint` and `align_to_offset_by_constraint` are modelled from how they are used: round up to a multiple, and round up to a congruent position.
- crates/compiler/load/src/lib.rs is not part of this model. It only wraps the compiler's loader.
- The Zig host test at the end of elf.rs is left out.
- The final file length returned through `offset_ref` (elf.rs:1661-1675, 1885) is not modelled beyond `MergeHeaders.NewShOffset`.
- Parser: `Env`, `Expr`, `Pattern` and the size tests (src/parser.rs:19-200) are left out. Only the combinators and their `State` are modelled. `debug_assert!` in `keyword` is a precondition.
- Parser.Keyword and Parser.Any: the `u32` column and line additions wrap as in a release build. A debug build would panic on overflow.
- Preprocess.ScanSegments: finds the relocation table's file offset through the segment that maps the table's address (`RelaPaddr`), not with the stale `original_rela_paddr` of elf.rs:706-713. The as-written search is `Preprocess.RelaPaddrAsWritten` (first "Findings" row).
- Preprocess.Plan: sets `originalRelaPaddr` to that corrected offset. The out-of-range copy that the as-written value leads to at elf.rs:791-792 is therefore never reached.
- Preprocess.LayOut: the slice bounds of elf.rs:779-797 are preconditions (the new table offset lies between the header shift start and the end of the host, and the original table lies inside the host). The source panics when they fail.
- DynamicDeps.ReadEntry: the `to_str().unwrap()` panic at elf.rs:1130, on a DT_NEEDED name that is not UTF-8, is not modelled. Names are compared as bytes.
- ShiftTables.ShiftGot: translates GOT entries with `UpdateVirtualOffset`, where elf.rs:1035 uses `update_physical_offset`. The as-written entry is `ShiftTables.ShiftGotEntryAsWritten` (third "Findings" row).
- MergeHeaders.TextSegment: maps the code at the address it was placed at (`textVaddr` of the layout), where elf.rs:1685 and 1771 use the rodata address plus the rodata file size. The as-written segment is `MergeHeaders.TextSegmentAsWritten` (fourth "Findings" row).
- MergeHeaders.AddSections: the new code section header also takes the placed code address, not the one that elf.rs:1713 computes.
- MergeHeaders.AddSegments: the new code segment is `MergeHeaders.TextSegment`, with the same substitution.
- MergePatch.PatchAll: defines the functions' symbols in the new code section (`MergePatch.TextSectionIndex`), where elf.rs:1766, 1854 and 1871 store `program_headers.len() - 1`. The as-written index is `MergePatch.TextSectionIndexAsWritten` (second "Findings" row).
- MergeRelocations.ApplyRelocation states the length, the count and the frame. The bytes it writes are stated by `MergeRelocations.RelativeRoundTrip` and `MergeRelocations.AbsoluteRoundTrip`, which need the value to fit its field.
- MergeRelocations.ResolveSection states the data copy only for a section without relocations. With relocations, the section's bytes are its data overwritten at the relocation fields.

## Findings

| source | as written | input that shows it | evidently intended | confidence | as-written member | corrected member |
|---|---|---|---|---|---|---|
| crates/linker/src/elf.rs:706-713 | the segment that holds the relocation table is looked for with `md.original_rela_paddr`, which still holds its initial value, so the load at offset 0 matches and the file offset is set to the table's address minus that segment's shift | PT_LOAD (offset 0, vaddr 0, filesz 0x1000) and PT_LOAD (offset 0x1000, vaddr 0x201000, filesz 0x1000), DT_RELA = 0x201400: result 0x201400, table at file offset 0x1400 | search the segment whose addresses hold `original_rela_vaddr` | not executed | Preprocess.RelaPaddrAsWrittenMisses | Preprocess.RelaPaddrInSegment |
| crates/linker/src/elf.rs:1766 | the functions' `st_shndx` is set to `program_headers.len() - 1`, an index into the program header table | 13 program headers and 30 sections: index 12, one of the host's sections, while the new code section is 31 | the index of the new code section, `sh_num + 1` | not executed | MergePatch.TextSectionIndexAsWrittenMisses | MergePatch.TextSectionIndexNamesText |
| crates/linker/src/elf.rs:1026-1037 | GOT entries, which hold addresses, are translated with `update_physical_offset` | new table at file offset 0x3000 but address 0x6000, GOT entry 0x4036: as written 0x4126, as an address 0x40f6 | translate GOT entries with `update_virtual_offset` | not executed | ShiftTables.ShiftGotEntryAsWrittenMisses | ShiftTables.ShiftGotEntry |
| crates/linker/src/elf.rs:1685 | the code section and segment get the address rodata start + rodata file size, which ignores `.bss` memory between them | `.rodata` 0x40 bytes, `.bss` 0x10, `.text` 0x20, alignment 0x1000, last host address 0x9000: code placed at 0xa040, header says 0x9040, inside the data segment | the address the code was placed and relocated at | not executed | MergeHeaders.TextVaddrAsWrittenMisses | MergeHeaders.NewSegmentsMapLayout |
