/** The records the linker reads and writes in a 64-bit little-endian ELF
    file, the constants it uses, and the `Metadata` record that carries every
    decision of the preprocessing pass to the merging pass. */
module ElfTypes {
  import opened LittleEndian

  // Relocation types of the System V AMD64 psABI, section 4.4.1.
  const R_X86_64_NONE: nat := 0
  const R_X86_64_GLOB_DAT: nat := 6
  const R_X86_64_JUMP_SLOT: nat := 7
  const R_X86_64_RELATIVE: nat := 8

  // Dynamic-table tags of the System V gABI, chapter 5 "Dynamic Section".
  const DT_NULL: nat := 0
  const DT_NEEDED: nat := 1
  const DT_PLTRELSZ: nat := 2
  const DT_PLTGOT: nat := 3
  const DT_HASH: nat := 4
  const DT_STRTAB: nat := 5
  const DT_SYMTAB: nat := 6
  const DT_RELA: nat := 7
  const DT_RELASZ: nat := 8
  const DT_INIT: nat := 12
  const DT_FINI: nat := 13
  const DT_REL: nat := 17
  const DT_DEBUG: nat := 21
  const DT_JMPREL: nat := 23
  const DT_INIT_ARRAY: nat := 25
  const DT_FINI_ARRAY: nat := 26
  const DT_PREINIT_ARRAY: nat := 32
  const DT_SYMTAB_SHNDX: nat := 34
  const DT_GNU_HASH: nat := 0x6fff_fef5
  const DT_TLSDESC_PLT: nat := 0x6fff_fef6
  const DT_TLSDESC_GOT: nat := 0x6fff_fef7
  const DT_GNU_CONFLICT: nat := 0x6fff_fef8
  const DT_GNU_LIBLIST: nat := 0x6fff_fef9
  const DT_CONFIG: nat := 0x6fff_fefa
  const DT_DEPAUDIT: nat := 0x6fff_fefb
  const DT_AUDIT: nat := 0x6fff_fefc
  const DT_PLTPAD: nat := 0x6fff_fefd
  const DT_MOVETAB: nat := 0x6fff_fefe
  const DT_SYMINFO: nat := 0x6fff_feff
  const DT_VERSYM: nat := 0x6fff_fff0
  const DT_RELACOUNT: nat := 0x6fff_fff9
  const DT_VERDEF: nat := 0x6fff_fffc
  const DT_VERNEED: nat := 0x6fff_fffe

  // Segment types and flags.
  const PT_LOAD: nat := 1
  const PT_PHDR: nat := 6
  const PT_GNU_STACK: nat := 0x6474_e551
  const PF_X: nat := 1
  const PF_W: nat := 2
  const PF_R: nat := 4

  // Section types and flags.
  const SHT_PROGBITS: nat := 1
  const SHT_RELA: nat := 4
  const SHT_REL: nat := 9
  const SHF_ALLOC: nat := 2
  const SHF_EXECINSTR: nat := 4

  // Record sizes in bytes.
  const RELA_ENTRY_SIZE: nat := 24
  const REL_ENTRY_SIZE: nat := 16
  const DYN_ENTRY_SIZE: nat := 16
  const SYM_ENTRY_SIZE: nat := 24

  /** Elf64_Rela with `r_info` split into its symbol and type halves. */
  datatype Rela = Rela(offset: nat, sym: nat, rtype: nat, addend: int)

  /** Elf64_Rel. */
  datatype Rel = Rel(offset: nat, info: nat)

  /** Elf64_Dyn: a tag and its value (or address). */
  datatype DynEntry = DynEntry(tag: nat, val: nat)

  /** Elf64_Phdr. */
  datatype ProgramHeader = ProgramHeader(
    pType: nat, pFlags: nat, pOffset: nat, pVaddr: nat,
    pPaddr: nat, pFilesz: nat, pMemsz: nat, pAlign: nat)

  /** Elf64_Shdr. */
  datatype SectionHeader = SectionHeader(
    shName: nat, shType: nat, shFlags: nat, shAddr: nat, shOffset: nat,
    shSize: nat, shLink: nat, shInfo: nat, shAddralign: nat, shEntsize: nat)

  /** Elf64_Sym, the fields the linker touches. */
  datatype Sym = Sym(stName: nat, stShndx: nat, stValue: nat, stSize: nat)

  /** The fields of Elf64_Ehdr that the linker reads or rewrites. */
  datatype FileHeader = FileHeader(
    entry: nat, phoff: nat, shoff: nat,
    phentsize: nat, phnum: nat, shentsize: nat, shnum: nat)

  /** How a patch site's final value is computed: an absolute address, or a
      displacement measured from the address just after the instruction. */
  datatype VirtualOffset = Absolute | Relative(address: nat)

  /** One call site (or GOT addend) to overwrite during merging. */
  datatype SurgeryEntry = SurgeryEntry(fileOffset: nat, virtualOffset: VirtualOffset, size: nat)

  /** The fatal exits of the linker (`internal_error!`, `user_error!` and
      the panics of Rust's standard library), one per message. */
  datatype LinkError =
    | UnwrapNone              // `Option::unwrap()` on `None`
    | SliceOutOfRange         // a slice end past the end of the buffer
    | RemainderByZero         // `%` by a zero divisor
    | NoDataAtZero            // no load segment at file offset 0
    | NoPltSection            // no `.plt` section
    | CompressedPlt           // `.plt` is stored compressed
    | NoDynamicRelocations    // the executable has no dynamic relocations
    | CompressedText          // a text section with a call to patch is compressed
    | UnknownOperandKind      // a branch operand of unknown width
    | FarBranch               // a far branch
    | UndecodableInstruction  // the disassembler failed
    | NoFileRange             // a text section's file range cannot be read
    | NoSectionData           // a text section's data cannot be loaded
    | NoTextSections          // the object has no code
    | DynamicIndexOutOfRange  // the dynamic table runs past the file
    | LibNotADependency       // the application library is not `DT_NEEDED`
    | SizeMismatch            // a section other than `.bss` with file size != memory size
    | UnsupportedSurgerySize  // a patch site that is neither 4 nor 8 bytes
    | MissingFunctionSize     // an application function without a size
    | UndefinedAppFunction    // an application function the object does not define
    | UnsupportedTarget       // a relocation whose target is not a symbol
    | UndefinedSymbol         // a relocation to a symbol nothing defines
    | UnsupportedKind         // a relocation kind the linker does not handle
    | UnsupportedSize         // a relocation width the linker does not handle

  /** The record that preprocessing builds and merging consumes. */
  datatype Metadata = Metadata(
    appFunctions: seq<string>,
    pltAddresses: map<string, (nat, nat)>,    // file offset, then virtual address
    surgeries: map<string, seq<SurgeryEntry>>,
    dynamicSymbolIndices: map<string, nat>,
    staticSymbolIndices: map<string, nat>,
    rocSymbolVaddresses: map<string, nat>,
    execLen: nat,
    loadAlignConstraint: nat,
    lastVaddr: nat,
    dynamicSectionOffset: nat,
    dynamicSectionCount: nat,
    dynamicSymbolTableSectionOffset: nat,
    symbolTableSectionOffset: nat,
    symbolTableSize: nat,
    originalRelaPaddr: nat,
    originalRelaVaddr: nat,
    newRelaPaddr: nat,
    newRelaVaddr: nat,
    relaSize: nat,
    relaSectionIndex: nat,
    phPhysicalShiftStart: nat,
    phVirtualShiftStart: nat,
    phShiftBytes: nat)

  /** `Metadata::default()`: every collection empty, every number zero. */
  function DefaultMetadata(): Metadata
  {
    Metadata([], map[], map[], map[], map[], map[], 0, 0, 0, 0, 0, 0, 0, 0, 0, 0, 0, 0, 0, 0, 0, 0, 0)
  }

  /** The `r_info` word of an Elf64_Rela (`set_r_info`). */
  function RelaInfo(sym: nat, rtype: nat): nat
  {
    sym * TWO_32 + rtype
  }

  /** The 24 bytes of an Elf64_Rela: r_offset, r_info, r_addend. */
  function EncodeRela(r: Rela): (b: seq<Byte>)
    ensures |b| == RELA_ENTRY_SIZE
  {
    Encode(r.offset, 8) + Encode(RelaInfo(r.sym, r.rtype), 8) + Encode(r.addend, 8)
  }

  function DecodeRela(b: seq<Byte>): Rela
    requires |b| == RELA_ENTRY_SIZE
  {
    var info := Decode(b[8..16]);
    Rela(Decode(b[..8]), info / TWO_32, info % TWO_32, Signed(Decode(b[16..24]), 8))
  }

  predicate FitsRela(r: Rela)
  {
    r.offset < TWO_64 && r.sym < TWO_32 && r.rtype < TWO_32
    && -(TWO_64 / 2) <= r.addend < TWO_64 / 2
  }

  /** The packed symbol and type read back from their eight bytes. */
  lemma {:induction false} InfoRoundTrip(sym: nat, rtype: nat)
    requires sym < TWO_32 && rtype < TWO_32
    ensures Decode(Encode(RelaInfo(sym, rtype), 8)) / TWO_32 == sym
    ensures Decode(Encode(RelaInfo(sym, rtype), 8)) % TWO_32 == rtype
  {
    Pow256Values();
    assert RelaInfo(sym, rtype) < TWO_64 by {
      assert sym * TWO_32 <= (TWO_32 - 1) * TWO_32;
    }
    UnsignedRoundTrip(RelaInfo(sym, rtype), 8);
    DivModUnique(RelaInfo(sym, rtype), TWO_32, sym, rtype);
  }

  /** The three 8-byte fields of a record are found at 0, 8 and 16. */
  lemma ThreeFields(x: seq<Byte>, y: seq<Byte>, z: seq<Byte>)
    requires |x| == 8 && |y| == 8 && |z| == 8
    ensures (x + y + z)[..8] == x && (x + y + z)[8..16] == y && (x + y + z)[16..24] == z
  {
    assert (x + y + z)[8..16] == y;
  }

  /** A relocation written as bytes reads back as the same relocation. */
  lemma {:induction false} RelaRoundTrip(r: Rela)
    requires FitsRela(r)
    ensures DecodeRela(EncodeRela(r)) == r
  {
    Pow256Values();
    ThreeFields(Encode(r.offset, 8), Encode(RelaInfo(r.sym, r.rtype), 8), Encode(r.addend, 8));
    UnsignedRoundTrip(r.offset, 8);
    InfoRoundTrip(r.sym, r.rtype);
    SignedRoundTrip(r.addend, 8);
  }

  /** The addend of the relocation record at `start` is the 8-byte field at
      `start + 16`: overwriting those bytes sets exactly the addend. */
  lemma {:induction false} AddendFieldAt16(r: Rela, v: int)
    requires FitsRela(r) && -(TWO_64 / 2) <= v < TWO_64 / 2
    ensures |Write(EncodeRela(r), 16, Encode(v, 8))| == RELA_ENTRY_SIZE
    ensures DecodeRela(Write(EncodeRela(r), 16, Encode(v, 8))) == r.(addend := v)
  {
    var b := Write(EncodeRela(r), 16, Encode(v, 8));
    assert b == EncodeRela(r.(addend := v));
    RelaRoundTrip(r.(addend := v));
  }
}
