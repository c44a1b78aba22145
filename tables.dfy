/** The table rewrites of `gen_elf_le` that follow the byte layout: every
    section header, REL relocation, address-valued dynamic entry, symbol and
    global offset table entry is moved to where the data it names now lives,
    and the file header is updated. Each table is the typed view the source
    takes of the output file, modelled as an array of records. */
module ShiftTables {
  import opened LittleEndian
  import opened ElfTypes
  import opened AddressTranslation
  import opened Preprocess

  /** Apply `f` to every record of `a`, in place. */
  method MapInPlace<T>(a: array<T>, f: T -> T)
    modifies a
    ensures forall i :: 0 <= i < a.Length ==> a[i] == f(old(a[i]))
  {
    var k := 0;
    while k < a.Length
      invariant k <= a.Length
      invariant forall i :: 0 <= i < k ==> a[i] == f(old(a[i]))
      invariant forall i :: k <= i < a.Length ==> a[i] == old(a[i])
    {
      a[k] := f(a[k]);
      k := k + 1;
    }
  }

  // ---------------------------------------------------------------------
  // Section headers.

  /** A section header once its data and its address have moved. */
  function ShiftSection(sh: SectionHeader, md: Metadata): SectionHeader
  {
    sh.(shOffset := UpdatePhysicalOffset(md, sh.shOffset), shAddr := UpdateVirtualOffset(md, sh.shAddr))
  }

  /** A REL section: its original file offset and size. */
  datatype RelSection = RelSection(offset: nat, size: nat)

  /** A RELA section: its index in the table, original file offset, size. */
  datatype RelaSection = RelaSection(index: nat, offset: nat, size: nat)

  /** The REL sections of `shs`, in table order. */
  function RelSections(shs: seq<SectionHeader>): (r: seq<RelSection>)
    ensures forall k :: 0 <= k < |r| ==> exists i :: 0 <= i < |shs| && shs[i].shType == SHT_REL
                                          && r[k] == RelSection(shs[i].shOffset, shs[i].shSize)
    ensures |r| <= |shs|
  {
    if shs == [] then []
    else
      var init := shs[..|shs| - 1];
      var last := shs[|shs| - 1];
      var r := RelSections(init);
      assert forall i :: 0 <= i < |init| ==> init[i] == shs[i];
      if last.shType == SHT_REL then r + [RelSection(last.shOffset, last.shSize)] else r
  }

  /** The RELA sections of `shs`, in table order, each with its index. */
  function RelaSections(shs: seq<SectionHeader>): (r: seq<RelaSection>)
    ensures |r| <= |shs|
    ensures forall k :: 0 <= k < |r| ==> r[k].index < |shs|
  {
    if shs == [] then []
    else
      var last := shs[|shs| - 1];
      var r := RelaSections(shs[..|shs| - 1]);
      if last.shType == SHT_RELA then r + [RelaSection(|shs| - 1, last.shOffset, last.shSize)] else r
  }

  /** Every listed section is a RELA section of the table, with its own
      offset and size. */
  lemma {:induction false} RelaSectionsSound(shs: seq<SectionHeader>, k: nat)
    requires k < |RelaSections(shs)|
    ensures var s := RelaSections(shs)[k];
            shs[s.index].shType == SHT_RELA && s == RelaSection(s.index, shs[s.index].shOffset, shs[s.index].shSize)
  {
    var init := shs[..|shs| - 1];
    if k < |RelaSections(init)| {
      RelaSectionsSound(init, k);
      assert RelaSections(shs)[k] == RelaSections(init)[k];
    }
  }

  /** The list is in increasing index order. */
  lemma {:induction false} RelaSectionsOrdered(shs: seq<SectionHeader>, k: nat, l: nat)
    requires k < l < |RelaSections(shs)|
    ensures RelaSections(shs)[k].index < RelaSections(shs)[l].index
  {
    var init := shs[..|shs| - 1];
    var r := RelaSections(init);
    if l < |r| {
      RelaSectionsOrdered(init, k, l);
      assert RelaSections(shs)[k] == r[k] && RelaSections(shs)[l] == r[l];
    } else {
      assert RelaSections(shs)[k] == r[k];
    }
  }

  /** Every RELA section of the table is listed. */
  lemma {:induction false} RelaSectionsComplete(shs: seq<SectionHeader>, i: nat)
    requires i < |shs| && shs[i].shType == SHT_RELA
    ensures RelaSection(i, shs[i].shOffset, shs[i].shSize) in RelaSections(shs)
  {
    var init := shs[..|shs| - 1];
    if i < |init| {
      assert init[i] == shs[i];
      RelaSectionsComplete(init, i);
    }
  }

  /** The loop over the section headers: each one is moved, and the REL
      and RELA sections are listed with their offsets from before the move. */
  method ShiftSectionHeaders(shs: array<SectionHeader>, md: Metadata)
    returns (rels: seq<RelSection>, relas: seq<RelaSection>)
    modifies shs
    ensures forall i :: 0 <= i < shs.Length ==> shs[i] == ShiftSection(old(shs[i]), md)
    ensures rels == RelSections(old(shs[..])) && relas == RelaSections(old(shs[..]))
  {
    ghost var s := shs[..];
    rels, relas := [], [];
    var k := 0;
    while k < shs.Length
      invariant k <= shs.Length
      invariant forall i :: 0 <= i < k ==> shs[i] == ShiftSection(s[i], md)
      invariant forall i :: k <= i < shs.Length ==> shs[i] == s[i]
      invariant rels == RelSections(s[..k]) && relas == RelaSections(s[..k])
    {
      SectionListsStep(s, k);
      var sh := shs[k];
      shs[k] := ShiftSection(sh, md);
      if sh.shType == SHT_REL {
        rels := rels + [RelSection(sh.shOffset, sh.shSize)];
      } else if sh.shType == SHT_RELA {
        relas := relas + [RelaSection(k, sh.shOffset, sh.shSize)];
      }
      k := k + 1;
    }
    assert s[..k] == s;
  }

  /** The lists after one more section header. */
  lemma {:induction false} SectionListsStep(s: seq<SectionHeader>, k: nat)
    requires k < |s|
    ensures RelSections(s[..k + 1])
         == RelSections(s[..k]) + if s[k].shType == SHT_REL then [RelSection(s[k].shOffset, s[k].shSize)] else []
    ensures RelaSections(s[..k + 1])
         == RelaSections(s[..k]) + if s[k].shType == SHT_RELA then [RelaSection(k, s[k].shOffset, s[k].shSize)] else []
  {
    assert s[..k + 1][..k] == s[..k];
  }

  // ---------------------------------------------------------------------
  // REL relocations, dynamic entries, symbols, global offsets.

  /** A REL relocation whose target address has moved. */
  function ShiftRel(r: Rel, md: Metadata): Rel
  {
    r.(offset := UpdateVirtualOffset(md, r.offset))
  }

  /** The dynamic tags whose value is an address. */
  predicate IsAddressTag(tag: nat)
  {
    tag in {DT_INIT, DT_FINI, DT_PLTGOT, DT_REL, DT_JMPREL, DT_INIT_ARRAY, DT_FINI_ARRAY,
            DT_PREINIT_ARRAY, DT_RELA, DT_HASH, DT_STRTAB, DT_SYMTAB, DT_DEBUG, DT_SYMTAB_SHNDX,
            DT_GNU_HASH, DT_TLSDESC_PLT, DT_TLSDESC_GOT, DT_GNU_CONFLICT, DT_GNU_LIBLIST, DT_CONFIG,
            DT_DEPAUDIT, DT_AUDIT, DT_PLTPAD, DT_MOVETAB, DT_SYMINFO, DT_VERSYM, DT_VERDEF, DT_VERNEED}
  }

  /** A dynamic entry after the move: an address-valued entry follows its
      address; any other entry (sizes, counts, flags, names) is kept. */
  function ShiftDynamic(d: DynEntry, md: Metadata): (r: DynEntry)
    ensures r.tag == d.tag
    ensures !IsAddressTag(Tag32(d)) ==> r == d
    ensures IsAddressTag(Tag32(d)) ==> r.val == UpdateVirtualOffset(md, d.val)
  {
    if IsAddressTag(Tag32(d)) then d.(val := UpdateVirtualOffset(md, d.val)) else d
  }

  /** The DT_RELA entry that named the original relocation table names the
      copy once shifted: the address of the segment added for it. The size
      entries that go with it are left alone. */
  lemma {:induction false} DynamicRelaNamesCopy(md: Metadata)
    requires md.relaSize > 0
    ensures ShiftDynamic(DynEntry(DT_RELA, md.originalRelaVaddr), md).val == RelaSegment(md).pVaddr
    ensures ShiftDynamic(DynEntry(DT_RELASZ, md.relaSize), md) == DynEntry(DT_RELASZ, md.relaSize)
  {
    assert Tag32(DynEntry(DT_RELA, md.originalRelaVaddr)) == DT_RELA;
    assert Tag32(DynEntry(DT_RELASZ, md.relaSize)) == DT_RELASZ;
    assert !IsAddressTag(DT_RELASZ);
    MovedTableLandsInCopy(VirtualShift(md), md.originalRelaVaddr);
  }

  /** A symbol whose value has moved. */
  function ShiftSymbol(s: Sym, md: Metadata): Sym
  {
    s.(stValue := UpdateVirtualOffset(md, s.stValue))
  }

  /** A global offset table entry as elf.rs:1033-1034 moves it: translated
      as a file offset. */
  function ShiftGotEntryAsWritten(v: nat, md: Metadata): nat
  {
    UpdatePhysicalOffset(md, v)
  }

  /** A global offset table entry holds an address, so it moves as an
      address does. */
  function ShiftGotEntry(v: nat, md: Metadata): (r: nat)
    ensures !InMovedTable(VirtualShift(md), v) ==> v <= r
  {
    UpdateVirtualOffset(md, v)
  }

  /** A position-independent host whose file ends at 0x3000 but whose data
      segment is mapped up to 0x5000: a GOT entry pointing at 0x4036 moves
      with the room only, yet the translation as written also adds the size
      of the relocation copy. */
  lemma {:induction false} ShiftGotEntryAsWrittenMisses()
    ensures var md := DefaultMetadata().(
                        originalRelaPaddr := 0x500, originalRelaVaddr := 0x500, relaSize := 0x30,
                        newRelaPaddr := 0x3000, newRelaVaddr := 0x6000,
                        phPhysicalShiftStart := 0x318, phVirtualShiftStart := 0x318, phShiftBytes := 0xc0);
            ShiftGotEntryAsWritten(0x4036, md) == 0x4126 && ShiftGotEntry(0x4036, md) == 0x40f6
  {
  }

  /** The symbol, REL, dynamic and GOT loops: each table is rewritten entry
      by entry with its own translation. */
  method ShiftRels(rels: array<Rel>, md: Metadata)
    modifies rels
    ensures forall i :: 0 <= i < rels.Length ==> rels[i] == ShiftRel(old(rels[i]), md)
  {
    MapInPlace(rels, r => ShiftRel(r, md));
  }

  method ShiftDynamicTable(dyns: array<DynEntry>, md: Metadata)
    modifies dyns
    ensures forall i :: 0 <= i < dyns.Length ==> dyns[i] == ShiftDynamic(old(dyns[i]), md)
  {
    MapInPlace(dyns, d => ShiftDynamic(d, md));
  }

  method ShiftSymbols(syms: array<Sym>, md: Metadata)
    modifies syms
    ensures forall i :: 0 <= i < syms.Length ==> syms[i] == ShiftSymbol(old(syms[i]), md)
  {
    MapInPlace(syms, s => ShiftSymbol(s, md));
  }

  method ShiftGot(got: array<nat>, md: Metadata)
    modifies got
    ensures forall i :: 0 <= i < got.Length ==> got[i] == ShiftGotEntry(old(got[i]), md)
  {
    MapInPlace(got, v => ShiftGotEntry(v, md));
  }

  // ---------------------------------------------------------------------
  // The file header.

  /** The file header after preprocessing: the section header table and the
      entry point have moved, and the table counts the three added program
      headers (a `u16` field, so the count wraps). */
  function UpdateFileHeader(h: FileHeader, md: Metadata): FileHeader
  {
    h.(shoff := UpdatePhysicalOffset(md, h.shoff),
       entry := UpdateVirtualOffset(md, h.entry),
       phnum := (h.phnum + ADDED_HEADER_COUNT) % 0x1_0000)
  }

  /** With the room planned for it, the longer program header table still
      ends within the room, and the section header table is found where the
      layout copied it: past the room and the relocation copy. */
  lemma {:induction false} UpdatedHeaderFits(h: FileHeader, md: Metadata)
    requires md.phShiftBytes == PhShiftBytes(h.phentsize) && md.phPhysicalShiftStart == PhEnd(h)
    requires h.phnum + ADDED_HEADER_COUNT < 0x1_0000
    requires md.newRelaPaddr == h.shoff && md.phPhysicalShiftStart <= h.shoff
    requires !InMovedTable(PhysicalShift(md), h.shoff)
    ensures PhEnd(UpdateFileHeader(h, md)) < md.phPhysicalShiftStart + md.phShiftBytes
    ensures UpdateFileHeader(h, md).shoff == h.shoff + md.phShiftBytes + md.relaSize
  {
    var h' := UpdateFileHeader(h, md);
    assert h'.phnum == h.phnum + ADDED_HEADER_COUNT;
    assert PhEnd(h') == PhEnd(h) + ADDED_HEADER_COUNT * h.phentsize;
    ShiftOutsideMovedTable(PhysicalShift(md), h.shoff);
  }
}
