/** The header updates that close `surgery_elf_help`'s copy pass: the
    section header table is copied past the application's data with two
    new entries, one for the read-only data and one for the code; the
    relocation table's section and segment grow by the added records; and
    two loadable segments map the new data and code. */
module MergeHeaders {
  import opened Wrappers
  import opened LittleEndian
  import opened ElfTypes
  import opened Alignment
  import opened Preprocess
  import opened MergeLayout
  import opened MergeRelocations

  const NEW_SECTION_COUNT: nat := 2
  const NEW_SECTION_ALIGNMENT: nat := 16

  /** Where the section header table is copied: past the data, aligned. */
  function NewShOffset(l: AppLayout): (r: nat)
    ensures l.end.offset <= r && r % MIN_SECTION_ALIGNMENT == 0
  {
    AlignByConstraint(l.end.offset, MIN_SECTION_ALIGNMENT)
  }

  /** The file size of the read-only data section, its memory size (which
      takes in zero-initialized data), and the file size of the code
      section, which runs up to the copied section header table; all
      three are `u64` differences. */
  function RodataSize(l: AppLayout): nat
  {
    Wrap64(l.textOffset - l.rodataOffset)
  }

  function RodataVirtualSize(l: AppLayout): nat
  {
    Wrap64(l.textVaddr - l.rodataVaddr)
  }

  function TextSize(l: AppLayout): nat
  {
    Wrap64(NewShOffset(l) - l.textOffset)
  }

  /** The address elf.rs:1685 gives the code section and segment: the
      start of the read-only data plus its file size. */
  function TextVaddrAsWritten(l: AppLayout): nat
  {
    Wrap64(l.rodataVaddr + RodataSize(l))
  }

  /** The header of the new read-only data section. */
  function RodataSection(l: AppLayout): SectionHeader
  {
    SectionHeader(0, SHT_PROGBITS, SHF_ALLOC, l.rodataVaddr, l.rodataOffset, RodataSize(l), 0, 0, NEW_SECTION_ALIGNMENT, 0)
  }

  /** The header of the new code section at address `vaddr`. */
  function TextSectionAt(l: AppLayout, vaddr: nat): SectionHeader
  {
    SectionHeader(0, SHT_PROGBITS, SHF_ALLOC + SHF_EXECINSTR, vaddr, l.textOffset, TextSize(l), 0, 0, NEW_SECTION_ALIGNMENT, 0)
  }

  /** The segment of the read-only and zero-initialized data. */
  function RodataSegment(l: AppLayout, md: Metadata): ProgramHeader
  {
    ProgramHeader(PT_LOAD, PF_R + PF_W, l.rodataOffset, l.rodataVaddr, l.rodataVaddr,
                  RodataSize(l), RodataVirtualSize(l), md.loadAlignConstraint)
  }

  /** The segment of the code at address `vaddr`. */
  function TextSegmentAt(l: AppLayout, vaddr: nat, md: Metadata): ProgramHeader
  {
    ProgramHeader(PT_LOAD, PF_R + PF_X + PF_W, l.textOffset, vaddr, vaddr, TextSize(l), TextSize(l), md.loadAlignConstraint)
  }

  /** The code segment as written. */
  function TextSegmentAsWritten(l: AppLayout, md: Metadata): ProgramHeader
  {
    TextSegmentAt(l, TextVaddrAsWritten(l), md)
  }

  /** The code segment mapped where the layout placed the code, which is
      where every symbol address and relocation of the code assumed it to
      be. */
  function TextSegment(l: AppLayout, md: Metadata): (ph: ProgramHeader)
    ensures ph.pOffset == l.textOffset && ph.pVaddr == l.textVaddr
  {
    TextSegmentAt(l, l.textVaddr, md)
  }

  /** The two new segments of a laid-out application: the data segment
      maps the file from the start of the data to the start of the code
      and ends in memory where the code segment begins; the code segment
      maps the code's file range to the addresses the code was laid out
      at, and runs to the copied section header table; each maps file
      offsets to addresses congruent to them modulo the alignment, as a
      loader requires. */
  lemma {:induction false} NewSegmentsMapLayout(l: AppLayout, shOffset: nat, absoluteRelocationCount: nat, secs: seq<AppSection>,
                             syms: seq<AppSymbol>, md: Metadata)
    requires md.loadAlignConstraint > 0 && Laid(l, shOffset, absoluteRelocationCount, secs, syms, md)
    requires NewShOffset(l) < TWO_64 && l.end.virt < TWO_64
    ensures var data, code := RodataSegment(l, md), TextSegment(l, md);
            data.pOffset + data.pFilesz == code.pOffset
            && data.pVaddr + data.pMemsz == code.pVaddr
            && code.pOffset + code.pFilesz == NewShOffset(l)
            && data.pVaddr % md.loadAlignConstraint == data.pOffset % md.loadAlignConstraint
            && code.pVaddr % md.loadAlignConstraint == code.pOffset % md.loadAlignConstraint
  {
    LaidGeometry(l, shOffset, absoluteRelocationCount, secs, syms, md);
  }

  /** A host whose last address is 0x9000, with 0x1000-byte pages. */
  predicate ExampleHost(md: Metadata)
  {
    md.loadAlignConstraint == 0x1000 && md.lastVaddr == 0x9000
  }

  /** What the layout pass looks at in a section: the groups it belongs
      to, its index and its sizes. */
  datatype SectionProfile = SectionProfile(readOnly: bool, zeroInit: bool, code: bool, index: nat, size: nat, fileSize: Option<nat>)

  function Profile(sec: AppSection): SectionProfile
  {
    SectionProfile(InGroup(sec, ReadOnly), InGroup(sec, ZeroInit), InGroup(sec, Code), sec.index, sec.size, sec.fileSize)
  }

  /** A read-only section of 0x40 bytes, 0x10 bytes of zero-initialized
      data and 0x20 bytes of code, with indices 1, 2 and 3. */
  predicate ExampleApp(ro: AppSection, bss: AppSection, text: AppSection)
  {
    && Profile(ro) == SectionProfile(true, false, false, 1, 0x40, Some(0x40))
    && Profile(bss) == SectionProfile(false, true, false, 2, 0x10, None)
    && Profile(text) == SectionProfile(false, false, true, 3, 0x20, Some(0x20))
  }

  /** Sections named `.rodata`, `.bss` and `.text` fit the example. */
  lemma ExampleAppByName()
    ensures ExampleApp(AppSection(1, ".rodata", 0x40, Some(0x40), [], []),
                       AppSection(2, ".bss", 0x10, None, [], []),
                       AppSection(3, ".text", 0x20, Some(0x20), [], []))
  {
    var ro, bss, text := ".rodata", ".bss", ".text";
    assert ro[..7] == ".rodata" && ro[..4][1] != bss[1] && ro[..5][1] != text[1];
    assert bss[..4] == ".bss";
    assert text[..5] == ".text" && text[..4][1] != bss[1];
  }

  lemma {:induction false} ExampleOrder(ro: AppSection, bss: AppSection, text: AppSection)
    requires ExampleApp(ro, bss, text)
    ensures PlacementOrder([ro, bss, text]) == [ro, bss, text]
    ensures Select([ro, bss, text], Code) == [text]
  {
    var secs := [ro, bss, text];
    assert [ro][..0] == [] && [ro, bss][..1] == [ro] && secs[..2] == [ro, bss];
    assert Select([ro], ReadOnly) == [ro] && Select([ro], ZeroInit) == [] && Select([ro], Code) == [];
    assert Select([ro, bss], ReadOnly) == [ro] && Select([ro, bss], ZeroInit) == [bss] && Select([ro, bss], Code) == [];
    assert Select(secs, ReadOnly) == [ro];
    assert Select(secs, ZeroInit) == [bss];
    assert Select(secs, Code) == [text];
  }

  /** The example's sections, copied past a section header table at 0x5000
      with no absolute relocations, are placed one after the other. */
  lemma {:induction false} ExamplePlacement(md: Metadata, ro: AppSection, bss: AppSection, text: AppSection)
    requires ExampleHost(md) && ExampleApp(ro, bss, text)
    ensures DataStart(0x5000, 0, md) == Cursor(0x5000, 0x9000)
    ensures PlaceSections(DataStart(0x5000, 0, md), NoPlacement, [ro, bss, text], [], md)
            == Ok((Cursor(0x5060, 0xa060),
                   NoPlacement.(sectionOffsets := map[1 := (0x5000, 0x9000), 2 := (0x5040, 0x9040), 3 := (0x5040, 0xa040)])))
  {
    var secs := [ro, bss, text];
    var start := DataStart(0x5000, 0, md);
    assert start == Cursor(0x5000, 0x9000) by {
      assert AlignByConstraint(0x5000, MIN_SECTION_ALIGNMENT) == 0x5000;
      assert AlignToOffsetByConstraint(0x9000, 0x5000, 0x1000) == 0x9000;
    }
    assert PlaceAt(Cursor(0x5000, 0x9000), 0x1000) == Cursor(0x5000, 0x9000);
    assert PlaceAt(Cursor(0x5040, 0x9040), 0x1000) == Cursor(0x5040, 0x9040) by {
      assert AlignByConstraint(0x5040, MIN_SECTION_ALIGNMENT) == 0x5040;
      assert AlignToOffsetByConstraint(0x9040, 0x5040, 0x1000) == 0x9040;
    }
    assert PlaceAt(Cursor(0x5040, 0x9050), 0x1000) == Cursor(0x5040, 0xa040) by {
      assert AlignByConstraint(0x5040, MIN_SECTION_ALIGNMENT) == 0x5040;
      assert AlignToOffsetByConstraint(0x9050, 0x5040, 0x1000) == 0xa040;
    }
    assert FileSize(ro) == 0x40 && FileSize(text) == 0x20;
    assert secs[..2][..1] == [ro] && secs[..2] == [ro, bss] && [ro][..0] == [];
    assert PlaceSections(start, NoPlacement, [ro], [], md)
           == Ok((Cursor(0x5040, 0x9040), NoPlacement.(sectionOffsets := map[1 := (0x5000, 0x9000)])));
    assert PlaceSections(start, NoPlacement, [ro, bss], [], md)
           == Ok((Cursor(0x5040, 0x9050), NoPlacement.(sectionOffsets := map[1 := (0x5000, 0x9000), 2 := (0x5040, 0x9040)])));
  }

  /** Where zero-initialized data lies between read-only data and code,
      the address as written is not where the code was laid out: in the
      example the code is placed at file offset 0x5040 and address 0xa040,
      but its segment is mapped at 0x9040, inside the data segment. */
  lemma {:induction false} TextVaddrAsWrittenMisses(md: Metadata, ro: AppSection, bss: AppSection, text: AppSection,
                                                    l: AppLayout)
    requires ExampleHost(md) && ExampleApp(ro, bss, text)
    requires Laid(l, 0x5000, 0, [ro, bss, text], [], md)
    ensures TextSegmentAsWritten(l, md).pVaddr == 0x9040 && TextSegment(l, md).pVaddr == 0xa040
    ensures RodataSegment(l, md).pVaddr <= TextSegmentAsWritten(l, md).pVaddr
            < RodataSegment(l, md).pVaddr + RodataSegment(l, md).pMemsz
  {
    ExampleLaid(md, ro, bss, text, l);
    assert TextVaddrAsWritten(l) == 0x9040;
    assert RodataVirtualSize(l) == 0x1040;
  }

  /** The layout pass succeeds on the example. */
  lemma {:induction false} ExampleLays(md: Metadata, ro: AppSection, bss: AppSection, text: AppSection)
    requires ExampleHost(md) && ExampleApp(ro, bss, text)
    ensures Select([ro, bss, text], Code) != []
    ensures PlaceSections(DataStart(0x5000, 0, md), NoPlacement, PlacementOrder([ro, bss, text]), [], md).Ok?
  {
    ExampleOrder(ro, bss, text);
    ExamplePlacement(md, ro, bss, text);
  }

  /** Whatever the layout pass yields for the example puts the data at
      file offset 0x5000 and address 0x9000 and the code at file offset
      0x5040 and address 0xa040. */
  lemma {:induction false} ExampleLaid(md: Metadata, ro: AppSection, bss: AppSection, text: AppSection, l: AppLayout)
    requires ExampleHost(md) && ExampleApp(ro, bss, text)
    requires Laid(l, 0x5000, 0, [ro, bss, text], [], md)
    ensures l.rodataOffset == 0x5000 && l.rodataVaddr == 0x9000 && l.textOffset == 0x5040 && l.textVaddr == 0xa040
  {
    ExampleOrder(ro, bss, text);
    ExamplePlacement(md, ro, bss, text);
    var ps := Placements([text], l.placement.sectionOffsets);
    assert ps == [(0x5040, 0xa040)];
  }

  // ---------------------------------------------------------------------
  // The tables.

  /** The relocation section, or the relocation segment, grown by `count`
      records (a `u64` sum). */
  function GrowSection(sh: SectionHeader, count: nat): SectionHeader
  {
    sh.(shSize := Wrap64(sh.shSize + count * RELA_ENTRY_SIZE))
  }

  function GrowSegment(ph: ProgramHeader, count: nat): ProgramHeader
  {
    ph.(pFilesz := Wrap64(ph.pFilesz + count * RELA_ENTRY_SIZE), pMemsz := Wrap64(ph.pMemsz + count * RELA_ENTRY_SIZE))
  }

  /** The copied section header table, two entries longer than the host's:
      the relocation section grows, then the last two entries become the
      new data and code sections. */
  method AddSections(shs: array<SectionHeader>, l: AppLayout, count: nat, md: Metadata)
    requires shs.Length >= NEW_SECTION_COUNT && md.relaSectionIndex < shs.Length
    modifies shs
    ensures shs[shs.Length - 2] == RodataSection(l) && shs[shs.Length - 1] == TextSectionAt(l, l.textVaddr)
    ensures md.relaSectionIndex < shs.Length - 2 ==> shs[md.relaSectionIndex] == GrowSection(old(shs[md.relaSectionIndex]), count)
    ensures forall i :: 0 <= i < shs.Length - 2 && i != md.relaSectionIndex ==> shs[i] == old(shs[i])
  {
    shs[md.relaSectionIndex] := GrowSection(shs[md.relaSectionIndex], count);
    shs[shs.Length - 2] := RodataSection(l);
    shs[shs.Length - 1] := TextSectionAt(l, l.textVaddr);
  }

  /** The program header table: the relocation segment (third from last)
      grows, and the last two entries become the new data and code
      segments. */
  method AddSegments(phs: array<ProgramHeader>, l: AppLayout, count: nat, md: Metadata)
    requires phs.Length >= ADDED_HEADER_COUNT
    modifies phs
    ensures phs[phs.Length - 3] == GrowSegment(old(phs[phs.Length - 3]), count)
    ensures phs[phs.Length - 2] == RodataSegment(l, md) && phs[phs.Length - 1] == TextSegment(l, md)
    ensures forall i :: 0 <= i < phs.Length - 3 ==> phs[i] == old(phs[i])
  {
    phs[phs.Length - 3] := GrowSegment(phs[phs.Length - 3], count);
    phs[phs.Length - 2] := RodataSegment(l, md);
    phs[phs.Length - 1] := TextSegment(l, md);
  }

  /** The relocation segment that preprocessing added, grown by the added
      records, covers them: its file range ends past the last one. */
  lemma {:induction false} GrownRelaSegmentCoversRecords(md: Metadata, count: nat)
    requires md.relaSize + count * RELA_ENTRY_SIZE < TWO_64
    ensures GrowSegment(RelaSegment(md), count).pFilesz == md.relaSize + count * RELA_ENTRY_SIZE
    ensures GrowSegment(RelaSegment(md), count).pOffset + GrowSegment(RelaSegment(md), count).pFilesz
            == md.newRelaPaddr + md.relaSize + md.phShiftBytes + count * RELA_ENTRY_SIZE
  {
  }

  /** The file header once the section header table has moved and holds
      two more entries (a `u16` count). */
  function MergedFileHeader(h: FileHeader, l: AppLayout): (r: FileHeader)
    ensures r.shoff == NewShOffset(l)
    ensures h.shnum + NEW_SECTION_COUNT < 0x1_0000 ==> r.shnum == h.shnum + NEW_SECTION_COUNT
    ensures r.phnum == h.phnum && r.phoff == h.phoff && r.entry == h.entry
  {
    h.(shoff := NewShOffset(l), shnum := (h.shnum + NEW_SECTION_COUNT) % 0x1_0000)
  }

  /** The section header table saved before the copy pass, written back at
      its new place past the application's data (a slice copy that panics
      when the file is too short); the data laid out before it keeps its
      bytes. */
  function CopySectionHeaders(buf: seq<Byte>, l: AppLayout, shTab: seq<Byte>): (r: Result<seq<Byte>, LinkError>)
    ensures r.Ok? <==> NewShOffset(l) + |shTab| <= |buf|
    ensures r.Ok? ==> |r.value| == |buf| && r.value[NewShOffset(l)..NewShOffset(l) + |shTab|] == shTab
    ensures r.Ok? ==> r.value[..l.end.offset] == buf[..l.end.offset]
  {
    WriteAt(buf, NewShOffset(l), shTab)
  }
}
