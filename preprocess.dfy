/** The geometry half of `gen_elf_le`: how much room is made after the
    program header table, where the copy of the dynamic relocation table
    goes in the file and in memory, how the program headers are rewritten
    around that room, and where every byte of the host lands in the
    preprocessed file. */
module Preprocess {
  import opened Wrappers
  import opened LittleEndian
  import opened ElfTypes
  import opened Alignment
  import opened AddressTranslation


  /** `MIN_SECTION_ALIGNMENT`. */
  const MIN_SECTION_ALIGNMENT: nat := 0x40

  /** Three program headers are added: the relocation copy, then the
      application's read-only data and its code. */
  const ADDED_HEADER_COUNT: nat := 3

  /** The room made after the program header table: three headers' worth,
      rounded up to a multiple of 64 bytes and always strictly larger. */
  function PhShiftBytes(phEntSize: nat): (r: nat)
    ensures r % MIN_SECTION_ALIGNMENT == 0
    ensures ADDED_HEADER_COUNT * phEntSize < r <= ADDED_HEADER_COUNT * phEntSize + MIN_SECTION_ALIGNMENT
  {
    var b := phEntSize * ADDED_HEADER_COUNT;
    b + (MIN_SECTION_ALIGNMENT - b % MIN_SECTION_ALIGNMENT)
  }

  /** No multiple of 64 that exceeds the three headers is smaller than the
      room chosen. */
  lemma {:induction false} PhShiftBytesLeast(phEntSize: nat, x: nat)
    requires x % MIN_SECTION_ALIGNMENT == 0 && x > ADDED_HEADER_COUNT * phEntSize
    ensures PhShiftBytes(phEntSize) <= x
  {
    var r := PhShiftBytes(phEntSize);
    if x < r {
      CongruentClose(x, r, MIN_SECTION_ALIGNMENT);
    }
  }

  /** Where the program header table ends in the file. */
  function PhEnd(hdr: FileHeader): nat
  {
    hdr.phoff + hdr.phnum * hdr.phentsize
  }

  // ---------------------------------------------------------------------
  // The dynamic relocation table's address and size.

  /** `d_tag as u32`. */
  function Tag32(d: DynEntry): nat
  {
    d.tag % TWO_32
  }

  /** The index of the last entry whose truncated tag is `tag`, or -1. */
  function LastTagged(dyns: seq<DynEntry>, tag: nat): (r: int)
    ensures -1 <= r < |dyns|
    ensures r >= 0 ==> Tag32(dyns[r]) == tag
    ensures forall j :: r < j < |dyns| ==> Tag32(dyns[j]) != tag
  {
    if dyns == [] then -1
    else if Tag32(dyns[|dyns| - 1]) == tag then |dyns| - 1
    else LastTagged(dyns[..|dyns| - 1], tag)
  }

  /** The value of the last entry tagged `tag`, or `dflt` when none is. */
  function TaggedValue(dyns: seq<DynEntry>, tag: nat, dflt: nat): nat
  {
    var i := LastTagged(dyns, tag);
    if i >= 0 then dyns[i].val else dflt
  }

  /** The loop over the dynamic table that reads DT_RELA and DT_RELASZ; a
      later entry overrides an earlier one, and an absent tag leaves the
      field as it was. */
  method FindRela(dyns: seq<DynEntry>, vaddr: nat, size: nat) returns (vaddr': nat, size': nat)
    ensures vaddr' == TaggedValue(dyns, DT_RELA, vaddr)
    ensures size' == TaggedValue(dyns, DT_RELASZ, size)
  {
    vaddr', size' := vaddr, size;
    var k := 0;
    while k < |dyns|
      invariant k <= |dyns|
      invariant vaddr' == TaggedValue(dyns[..k], DT_RELA, vaddr)
      invariant size' == TaggedValue(dyns[..k], DT_RELASZ, size)
    {
      assert dyns[..k + 1][..k] == dyns[..k];
      var tag := dyns[k].tag % TWO_32;
      if tag == DT_RELA {
        vaddr' := dyns[k].val;
      } else if tag == DT_RELASZ {
        size' := dyns[k].val;
      }
      k := k + 1;
    }
    assert dyns[..k] == dyns;
  }

  /** The value found is the one the last matching entry carries. */
  lemma {:induction false} TaggedValueIsLast(dyns: seq<DynEntry>, tag: nat, dflt: nat, i: nat)
    requires i < |dyns| && Tag32(dyns[i]) == tag
    requires forall j :: i < j < |dyns| ==> Tag32(dyns[j]) != tag
    ensures TaggedValue(dyns, tag, dflt) == dyns[i].val
  {
  }

  // ---------------------------------------------------------------------
  // The scan of the program headers.

  predicate LoadsFileStart(ph: ProgramHeader)
  {
    ph.pType == PT_LOAD && ph.pOffset == 0
  }

  /** The index of the last loadable segment that starts at file offset 0,
      or -1 when there is none. */
  function LastLoadAtZero(phs: seq<ProgramHeader>): (r: int)
    ensures -1 <= r < |phs|
    ensures r >= 0 ==> LoadsFileStart(phs[r])
    ensures forall j :: r < j < |phs| ==> !LoadsFileStart(phs[j])
  {
    if phs == [] then -1
    else if LoadsFileStart(phs[|phs| - 1]) then |phs| - 1
    else LastLoadAtZero(phs[..|phs| - 1])
  }

  /** The loadable segment maps virtual address `v` from the file. */
  predicate MapsAddress(ph: ProgramHeader, v: nat)
  {
    ph.pType == PT_LOAD && ph.pVaddr <= v < ph.pVaddr + ph.pFilesz
  }

  /** The index of the last loadable segment that maps `v`, or -1. */
  function LastMapping(phs: seq<ProgramHeader>, v: nat): (r: int)
    ensures -1 <= r < |phs|
    ensures r >= 0 ==> MapsAddress(phs[r], v)
    ensures forall j :: r < j < |phs| ==> !MapsAddress(phs[j], v)
  {
    if phs == [] then -1
    else if MapsAddress(phs[|phs| - 1], v) then |phs| - 1
    else LastMapping(phs[..|phs| - 1], v)
  }

  /** The file offset of the relocation table at address `relaVaddr`: its
      distance into the segment that maps it, added to that segment's file
      offset; `dflt` when no segment maps it. */
  function RelaPaddr(phs: seq<ProgramHeader>, relaVaddr: nat, dflt: nat): nat
  {
    var i := LastMapping(phs, relaVaddr);
    if i >= 0 then relaVaddr - phs[i].pVaddr + phs[i].pOffset else dflt
  }

  /** The offset found lies inside the file range of a segment that maps the
      table, as far from that range's start as the table is from the
      segment's address. */
  lemma {:induction false} RelaPaddrInSegment(phs: seq<ProgramHeader>, relaVaddr: nat, dflt: nat)
    requires exists i :: 0 <= i < |phs| && MapsAddress(phs[i], relaVaddr)
    ensures exists i :: 0 <= i < |phs| && MapsAddress(phs[i], relaVaddr)
              && phs[i].pOffset <= RelaPaddr(phs, relaVaddr, dflt) < phs[i].pOffset + phs[i].pFilesz
              && RelaPaddr(phs, relaVaddr, dflt) - phs[i].pOffset == relaVaddr - phs[i].pVaddr
  {
    var i := LastMapping(phs, relaVaddr);
    assert i >= 0;
  }

  /** The offset the search as written computes from segment `ph`. */
  function WrappedPaddr(ph: ProgramHeader, relaVaddr: nat): nat
  {
    Wrap64(relaVaddr - Wrap64(ph.pVaddr - ph.pOffset))
  }

  /** The search as elf.rs:706-713 writes it: the segment is chosen by
      testing the offset found so far (initially `dflt`) against each file
      range, with `u64` subtraction wrapping. */
  function RelaPaddrAsWritten(phs: seq<ProgramHeader>, relaVaddr: nat, dflt: nat): (r: nat)
    ensures r == dflt || exists i :: 0 <= i < |phs| && phs[i].pType == PT_LOAD && r == WrappedPaddr(phs[i], relaVaddr)
  {
    if phs == [] then dflt
    else
      var init := phs[..|phs| - 1];
      var p := RelaPaddrAsWritten(init, relaVaddr, dflt);
      var ph := phs[|phs| - 1];
      if ph.pType == PT_LOAD && ph.pOffset <= p < ph.pOffset + ph.pFilesz then
        WrappedPaddr(ph, relaVaddr)
      else
        assert forall i :: 0 <= i < |init| ==> init[i] == phs[i];
        p
  }

  /** A host whose relocation table sits in its second loadable segment:
      the search as written returns the table's address where the file
      offset is meant. */
  lemma {:induction false} RelaPaddrAsWrittenMisses()
    ensures var phs := [ProgramHeader(PT_LOAD, PF_R, 0, 0, 0, 0x1000, 0x1000, 0x1000),
                        ProgramHeader(PT_LOAD, PF_R, 0x1000, 0x20_1000, 0x20_1000, 0x1000, 0x1000, 0x1000)];
            RelaPaddrAsWritten(phs, 0x20_1400, 0) == 0x20_1400
            && RelaPaddr(phs, 0x20_1400, 0) == 0x1400
  {
    var phs := [ProgramHeader(PT_LOAD, PF_R, 0, 0, 0, 0x1000, 0x1000, 0x1000),
                ProgramHeader(PT_LOAD, PF_R, 0x1000, 0x20_1000, 0x20_1000, 0x1000, 0x1000, 0x1000)];
    assert phs[..1][..0] == [];
    assert phs[..1] == [phs[0]];
    assert RelaPaddrAsWritten(phs[..1], 0x20_1400, 0) == 0x20_1400;
    assert LastMapping(phs[..1], 0x20_1400) == -1;
  }

  /** `p_vaddr + p_memsz`. */
  function SegmentEnd(ph: ProgramHeader): nat
  {
    ph.pVaddr + ph.pMemsz
  }

  /** The largest segment end over every header that is not the stack
      marker; `None` when every header is one. */
  function LastSegmentEnd(phs: seq<ProgramHeader>): (r: Option<nat>)
    ensures r.None? <==> forall i :: 0 <= i < |phs| ==> phs[i].pType == PT_GNU_STACK
    ensures r.Some? ==> forall i :: 0 <= i < |phs| && phs[i].pType != PT_GNU_STACK ==> SegmentEnd(phs[i]) <= r.value
    ensures r.Some? ==> exists i :: 0 <= i < |phs| && phs[i].pType != PT_GNU_STACK && SegmentEnd(phs[i]) == r.value
  {
    if phs == [] then None
    else
      var init := phs[..|phs| - 1];
      var last := phs[|phs| - 1];
      var rest := LastSegmentEnd(init);
      assert forall i :: 0 <= i < |init| ==> init[i] == phs[i];
      if last.pType == PT_GNU_STACK then rest
      else if rest.None? || rest.value <= SegmentEnd(last) then Some(SegmentEnd(last))
      else rest
  }

  /** What one pass over the program headers decides. */
  datatype SegmentScan = SegmentScan(loadAlign: nat, virtShiftStart: nat, relaPaddr: nat)

  /** The loop over the program headers: the segment that loads the file's
      start gives the alignment and the address where the room begins (the
      last such segment wins), and the segment that maps the relocation
      table gives its file offset. It fails when no segment loads offset 0. */
  method ScanSegments(phs: seq<ProgramHeader>, physStart: nat, relaVaddr: nat, relaPaddr: nat)
    returns (r: Result<SegmentScan, LinkError>)
    ensures r.Err? <==> LastLoadAtZero(phs) < 0
    ensures r.Ok? ==> var i := LastLoadAtZero(phs);
              0 <= i < |phs|
              && r.value == SegmentScan(phs[i].pAlign, physStart + phs[i].pVaddr, RelaPaddr(phs, relaVaddr, relaPaddr))
  {
    var found := false;
    var align, virt, paddr := 0, 0, relaPaddr;
    var k := 0;
    while k < |phs|
      invariant k <= |phs|
      invariant found <==> LastLoadAtZero(phs[..k]) >= 0
      invariant found ==> var i := LastLoadAtZero(phs[..k]);
                  0 <= i < k && align == phs[i].pAlign && virt == physStart + phs[i].pVaddr
      invariant paddr == RelaPaddr(phs[..k], relaVaddr, relaPaddr)
    {
      assert phs[..k + 1][..k] == phs[..k];
      var ph := phs[k];
      if ph.pType == PT_LOAD && ph.pOffset == 0 {
        found := true;
        align := ph.pAlign;
        virt := physStart + ph.pVaddr;
      }
      if ph.pType == PT_LOAD && ph.pVaddr <= relaVaddr < ph.pVaddr + ph.pFilesz {
        paddr := relaVaddr - ph.pVaddr + ph.pOffset;
      }
      k := k + 1;
    }
    assert phs[..k] == phs;
    if !found {
      return Err(NoDataAtZero);
    }
    return Ok(SegmentScan(align, virt, paddr));
  }

  /** The all-zero header in the slot after the table: the fresh output file
      holds zeros there when the headers are first read. */
  const NULL_HEADER: ProgramHeader := ProgramHeader(0, 0, 0, 0, 0, 0, 0, 0)

  /** That zeroed slot is why the largest segment end always exists. */
  lemma {:induction false} NullSlotHasEnd(phs: seq<ProgramHeader>)
    requires |phs| > 0 && phs[|phs| - 1] == NULL_HEADER
    ensures LastSegmentEnd(phs).Some?
  {
    assert phs[|phs| - 1].pType != PT_GNU_STACK;
  }

  /** The plan succeeds when a segment loads the file start with a nonzero
      alignment (the alignment helper divides by it) and some header is not
      the stack marker (the largest segment end is unwrapped). */
  predicate Plannable(phs: seq<ProgramHeader>)
  {
    LastLoadAtZero(phs) >= 0 && phs[LastLoadAtZero(phs)].pAlign > 0 && LastSegmentEnd(phs).Some?
  }

  /** The address of the relocation copy: one alignment unit past the end
      of the highest segment, then up to the first address congruent to its
      file offset `shoff`. It is congruent to that offset, as the loader
      requires of a segment, and it lies at least one alignment unit above
      the end of every segment, so the new segment overlaps none. */
  function NewRelaVaddr(phs: seq<ProgramHeader>, shoff: nat): (r: nat)
    requires Plannable(phs)
    ensures var align := phs[LastLoadAtZero(phs)].pAlign;
            r % align == shoff % align
            && forall j :: 0 <= j < |phs| && phs[j].pType != PT_GNU_STACK ==> SegmentEnd(phs[j]) + align <= r
  {
    var align := phs[LastLoadAtZero(phs)].pAlign;
    AlignToOffsetByConstraint(LastSegmentEnd(phs).value + align, shoff, align)
  }

  /** The layout decisions of `gen_elf_le`. `phs` is the program header
      table of the output file, one slot longer than the host's. */
  method Plan(execSize: nat, hdr: FileHeader, dyns: seq<DynEntry>, phs: seq<ProgramHeader>, md: Metadata)
    returns (r: Result<Metadata, LinkError>)
    ensures r.Err? <==> !Plannable(phs)
    ensures r.Ok? ==>
              var relaVaddr := TaggedValue(dyns, DT_RELA, md.originalRelaVaddr);
              var relaSize := TaggedValue(dyns, DT_RELASZ, md.relaSize);
              var shift := PhShiftBytes(hdr.phentsize);
              var i := LastLoadAtZero(phs);
              var newRelaVaddr := NewRelaVaddr(phs, hdr.shoff);
              r.value == md.(originalRelaVaddr := relaVaddr, relaSize := relaSize,
                             newRelaPaddr := hdr.shoff, phShiftBytes := shift,
                             phPhysicalShiftStart := PhEnd(hdr),
                             execLen := execSize + shift + relaSize,
                             loadAlignConstraint := phs[i].pAlign,
                             phVirtualShiftStart := PhEnd(hdr) + phs[i].pVaddr,
                             originalRelaPaddr := RelaPaddr(phs, relaVaddr, md.originalRelaPaddr),
                             newRelaVaddr := newRelaVaddr,
                             lastVaddr := newRelaVaddr + relaSize)
  {
    var relaVaddr, relaSize := FindRela(dyns, md.originalRelaVaddr, md.relaSize);
    var shift := PhShiftBytes(hdr.phentsize);
    var phEnd := PhEnd(hdr);
    var scan := ScanSegments(phs, phEnd, relaVaddr, md.originalRelaPaddr);
    if scan.Err? {
      return Err(scan.error);
    }
    var s := scan.value;
    if LastSegmentEnd(phs).None? {
      return Err(UnwrapNone);
    }
    if s.loadAlign == 0 {
      return Err(RemainderByZero);
    }
    var newRelaVaddr := NewRelaVaddr(phs, hdr.shoff);
    r := Ok(md.(originalRelaVaddr := relaVaddr, relaSize := relaSize,
                newRelaPaddr := hdr.shoff, phShiftBytes := shift,
                phPhysicalShiftStart := phEnd,
                execLen := execSize + shift + relaSize,
                loadAlignConstraint := s.loadAlign,
                phVirtualShiftStart := s.virtShiftStart,
                originalRelaPaddr := s.relaPaddr,
                newRelaVaddr := newRelaVaddr,
                lastVaddr := newRelaVaddr + relaSize));
  }

  // ---------------------------------------------------------------------
  // The rewrite of the program headers.

  /** One header after the room is made: the segment that loads the file
      start and the header-table segment grow by the room; every other
      header moves with the data it describes. */
  function ShiftSegment(ph: ProgramHeader, md: Metadata): ProgramHeader
  {
    if LoadsFileStart(ph) || ph.pType == PT_PHDR then
      ph.(pFilesz := ph.pFilesz + md.phShiftBytes, pMemsz := ph.pMemsz + md.phShiftBytes)
    else
      ph.(pOffset := UpdatePhysicalOffset(md, ph.pOffset),
          pVaddr := UpdateVirtualOffset(md, ph.pVaddr),
          pPaddr := UpdateVirtualOffset(md, ph.pPaddr))
  }

  /** The segment added for the relocation copy: read-only, loaded from the
      copy's new offset at its new address, aligned like the first segment. */
  function RelaSegment(md: Metadata): ProgramHeader
  {
    ProgramHeader(PT_LOAD, PF_R, md.newRelaPaddr + md.phShiftBytes,
                  md.newRelaVaddr + md.phShiftBytes, md.newRelaVaddr + md.phShiftBytes,
                  md.relaSize, md.relaSize, md.loadAlignConstraint)
  }

  /** The loop that shifts every header, then the new segment written into
      the extra slot. */
  method RewriteProgramHeaders(phs: array<ProgramHeader>, md: Metadata)
    requires phs.Length >= 1
    modifies phs
    ensures forall i :: 0 <= i < phs.Length - 1 ==> phs[i] == ShiftSegment(old(phs[i]), md)
    ensures phs[phs.Length - 1] == RelaSegment(md)
  {
    var k := 0;
    while k < phs.Length
      invariant k <= phs.Length
      invariant forall i :: 0 <= i < k ==> phs[i] == ShiftSegment(old(phs[i]), md)
      invariant forall i :: k <= i < phs.Length ==> phs[i] == old(phs[i])
    {
      var ph := phs[k];
      if (ph.pType == PT_LOAD && ph.pOffset == 0) || ph.pType == PT_PHDR {
        phs[k] := ph.(pFilesz := ph.pFilesz + md.phShiftBytes, pMemsz := ph.pMemsz + md.phShiftBytes);
      } else {
        phs[k] := ph.(pOffset := UpdatePhysicalOffset(md, ph.pOffset),
                      pVaddr := UpdateVirtualOffset(md, ph.pVaddr),
                      pPaddr := UpdateVirtualOffset(md, ph.pPaddr));
      }
      k := k + 1;
    }
    phs[phs.Length - 1] := RelaSegment(md);
  }

  /** The first segment and the header segment keep their start and cover
      the room as well. */
  lemma {:induction false} ShiftSegmentGrows(ph: ProgramHeader, md: Metadata)
    requires LoadsFileStart(ph) || ph.pType == PT_PHDR
    ensures ShiftSegment(ph, md).pOffset == ph.pOffset && ShiftSegment(ph, md).pVaddr == ph.pVaddr
    ensures ShiftSegment(ph, md).pFilesz == ph.pFilesz + md.phShiftBytes
  {
  }

  /** A segment that lies past the room in both spaces, on the same side of
      the relocation copy in both and outside the moved table, keeps its
      file-to-memory mapping: its address and offset move by the same
      amount, and its sizes and alignment do not change. */
  lemma {:induction false} ShiftSegmentKeepsMapping(ph: ProgramHeader, md: Metadata)
    requires !LoadsFileStart(ph) && ph.pType != PT_PHDR
    requires md.phPhysicalShiftStart <= ph.pOffset && md.phVirtualShiftStart <= ph.pVaddr
    requires !InMovedTable(PhysicalShift(md), ph.pOffset) && !InMovedTable(VirtualShift(md), ph.pVaddr)
    requires (md.newRelaPaddr <= ph.pOffset) == (md.newRelaVaddr <= ph.pVaddr)
    ensures ShiftSegment(ph, md).pVaddr - ShiftSegment(ph, md).pOffset == ph.pVaddr - ph.pOffset
    ensures ShiftSegment(ph, md).pFilesz == ph.pFilesz && ShiftSegment(ph, md).pMemsz == ph.pMemsz
    ensures ShiftSegment(ph, md).pAlign == ph.pAlign
  {
    ShiftOutsideMovedTable(PhysicalShift(md), ph.pOffset);
    ShiftOutsideMovedTable(VirtualShift(md), ph.pVaddr);
  }

  /** The new segment satisfies the loader's rule that address and offset
      agree modulo the alignment, because the plan chose its address so. */
  lemma {:induction false} RelaSegmentCongruent(md: Metadata)
    requires md.loadAlignConstraint > 0
    requires md.newRelaVaddr % md.loadAlignConstraint == md.newRelaPaddr % md.loadAlignConstraint
    ensures var s := RelaSegment(md); s.pVaddr % s.pAlign == s.pOffset % s.pAlign
  {
    var c := md.loadAlignConstraint;
    var q1, q2 := md.newRelaVaddr / c, md.newRelaPaddr / c;
    var m := md.newRelaPaddr % c;
    assert md.newRelaVaddr + md.phShiftBytes - (md.newRelaPaddr + md.phShiftBytes) == c * (q1 - q2);
    CongruentShift(md.newRelaPaddr + md.phShiftBytes, md.newRelaVaddr + md.phShiftBytes, c, q1 - q2);
  }

  /** Numbers a multiple of `c` apart agree modulo `c`. */
  lemma {:induction false} CongruentShift(x: nat, y: nat, c: nat, k: int)
    requires c > 0 && y - x == c * k
    ensures y % c == x % c
  {
    var q := x / c;
    assert x == c * q + x % c;
    assert y == c * (q + k) + x % c;
    DivModUnique(y, c, q + k, x % c);
  }

  // ---------------------------------------------------------------------
  // The byte layout of the preprocessed file.

  /** `n` zero bytes, as a new memory map holds them. */
  function Zeros(n: nat): (r: seq<Byte>)
    ensures |r| == n && forall i :: 0 <= i < n ==> r[i] == 0
  {
    seq(n, _ => 0)
  }

  /** The preprocessed file, byte by byte: the head of the input up to
      `start` (the end of the program header table), `shift` zero bytes of
      room for the new program headers, the input up to `shOff` (the
      section header table), the copy of the `size` bytes of the relocation
      table at `orig`, then the input from `shOff` on. */
  function Assemble(exec: seq<Byte>, start: nat, shOff: nat, shift: nat, size: nat, orig: nat): (o: seq<Byte>)
    requires start <= shOff <= |exec| && orig + size <= |exec|
    ensures |o| == |exec| + shift + size
  {
    seq(|exec| + shift + size,
        k requires 0 <= k < |exec| + shift + size =>
          if k < start then exec[k]
          else if k < start + shift then 0
          else if k < shOff + shift then exec[k - shift]
          else if k < shOff + shift + size then exec[orig + (k - shOff - shift)]
          else exec[k - shift - size])
  }

  function LaidOut(exec: seq<Byte>, md: Metadata): (o: seq<Byte>)
    requires md.phPhysicalShiftStart <= md.newRelaPaddr <= |exec|
    requires md.originalRelaPaddr + md.relaSize <= |exec|
    ensures |o| == |exec| + md.phShiftBytes + md.relaSize
  {
    Assemble(exec, md.phPhysicalShiftStart, md.newRelaPaddr, md.phShiftBytes, md.relaSize, md.originalRelaPaddr)
  }

  /** Byte `k` after four disjoint writes in increasing position order. */
  lemma FourWrites(z: seq<Byte>, a: seq<Byte>, p2: nat, b: seq<Byte>, p3: nat, c: seq<Byte>, p4: nat, d: seq<Byte>, k: nat)
    requires |a| <= p2 && p2 + |b| <= p3 && p3 + |c| <= p4 && p4 + |d| == |z| && k < |z|
    ensures Write(Write(Write(Write(z, 0, a), p2, b), p3, c), p4, d)[k]
            == if k < |a| then a[k] else if k < p2 then z[k] else if k < p2 + |b| then b[k - p2]
               else if k < p3 then z[k] else if k < p3 + |c| then c[k - p3] else if k < p4 then z[k] else d[k - p4]
  {
    var o1 := Write(z, 0, a);
    var o2 := Write(o1, p2, b);
    var o3 := Write(o2, p3, c);
    WriteIndex(o3, p4, d, k);
    WriteIndex(o2, p3, c, k);
    WriteIndex(o1, p2, b, k);
    WriteIndex(z, 0, a, k);
  }

  /** The four `copy_from_slice` calls of `gen_elf_le` into a zeroed file. */
  function Copies(exec: seq<Byte>, start: nat, shOff: nat, shift: nat, size: nat, orig: nat): (o: seq<Byte>)
    requires start <= shOff <= |exec| && orig + size <= |exec|
    ensures |o| == |exec| + shift + size
  {
    Write(Write(Write(Write(Zeros(|exec| + shift + size), 0, exec[..start]),
                      start + shift, exec[start..shOff]),
                shOff + shift, exec[orig..orig + size]),
          shOff + shift + size, exec[shOff..])
  }

  lemma CopiesAt(exec: seq<Byte>, start: nat, shOff: nat, shift: nat, size: nat, orig: nat, k: nat)
    requires start <= shOff <= |exec| && orig + size <= |exec| && k < |exec| + shift + size
    ensures Copies(exec, start, shOff, shift, size, orig)[k] == Assemble(exec, start, shOff, shift, size, orig)[k]
  {
    var z, a, b, c, d := Zeros(|exec| + shift + size), exec[..start], exec[start..shOff], exec[orig..orig + size], exec[shOff..];
    FourWrites(z, a, start + shift, b, shOff + shift, c, shOff + shift + size, d, k);
  }

  /** The copies assemble the preprocessed file. */
  lemma CopiesAssemble(exec: seq<Byte>, start: nat, shOff: nat, shift: nat, size: nat, orig: nat)
    requires start <= shOff <= |exec| && orig + size <= |exec|
    ensures Copies(exec, start, shOff, shift, size, orig) == Assemble(exec, start, shOff, shift, size, orig)
  {
    forall k | 0 <= k < |exec| + shift + size
      ensures Copies(exec, start, shOff, shift, size, orig)[k] == Assemble(exec, start, shOff, shift, size, orig)[k]
    {
      CopiesAt(exec, start, shOff, shift, size, orig, k);
    }
  }

  /** Every byte of the input lands at its translated offset, the room for
      the new program headers is zero, and the copy of the relocation table
      holds the original table. */
  lemma LaidOutTranslates(exec: seq<Byte>, md: Metadata)
    requires md.phPhysicalShiftStart <= md.newRelaPaddr <= |exec|
    requires md.originalRelaPaddr + md.relaSize <= |exec|
    ensures forall x :: 0 <= x < |exec| ==> LaidOut(exec, md)[UpdatePhysicalOffset(md, x)] == exec[x]
    ensures forall x :: md.phPhysicalShiftStart <= x < md.phPhysicalShiftStart + md.phShiftBytes ==> LaidOut(exec, md)[x] == 0
    ensures forall p :: md.newRelaPaddr + md.phShiftBytes <= p < md.newRelaPaddr + md.phShiftBytes + md.relaSize ==>
              LaidOut(exec, md)[p] == exec[md.originalRelaPaddr + (p - md.newRelaPaddr - md.phShiftBytes)]
  {
    forall x | 0 <= x < |exec|
      ensures LaidOut(exec, md)[UpdatePhysicalOffset(md, x)] == exec[x]
    {
      if InMovedTable(PhysicalShift(md), x) {
        MovedTableLandsInCopy(PhysicalShift(md), x);
      } else {
        ShiftOutsideMovedTable(PhysicalShift(md), x);
      }
    }
  }

  /** Four successive copies into a zeroed file give `Copies`. */
  lemma CopiesInOrder(exec: seq<Byte>, start: nat, shOff: nat, shift: nat, size: nat, orig: nat,
                      z: seq<Byte>, o1: seq<Byte>, o2: seq<Byte>, o3: seq<Byte>, o4: seq<Byte>)
    requires start <= shOff <= |exec| && orig + size <= |exec|
    requires z == Zeros(|exec| + shift + size)
    requires o1 == Write(z, 0, exec[..start])
    requires o2 == Write(o1, start + shift, exec[start..shOff])
    requires o3 == Write(o2, shOff + shift, exec[orig..orig + size])
    requires o4 == Write(o3, shOff + shift + size, exec[shOff..])
    ensures o4 == Copies(exec, start, shOff, shift, size, orig)
  {
  }

  /** `copy_from_slice` into the output file. */
  method CopyIn(out: array<Byte>, dst: nat, src: seq<Byte>)
    requires dst + |src| <= out.Length
    modifies out
    ensures out[..] == Write(old(out[..]), dst, src)
  {
    forall i | 0 <= i < |src| {
      out[dst + i] := src[i];
    }
    assert out[..] == Write(old(out[..]), dst, src);
  }

  /** The copies of `gen_elf_le`: the file up to the end of the program
      header table, a zeroed room, the rest up to the section header table,
      the copy of the relocation table, then the section header table and
      whatever follows it. */
  method LayOut(exec: seq<Byte>, md: Metadata) returns (out: array<Byte>)
    requires md.phPhysicalShiftStart <= md.newRelaPaddr <= |exec|
    requires md.originalRelaPaddr + md.relaSize <= |exec|
    requires md.execLen == |exec| + md.phShiftBytes + md.relaSize
    ensures fresh(out) && out.Length == md.execLen
    ensures out[..] == LaidOut(exec, md)
  {
    out := CopyPieces(exec, md.phPhysicalShiftStart, md.newRelaPaddr, md.phShiftBytes, md.relaSize, md.originalRelaPaddr);
    CopiesAssemble(exec, md.phPhysicalShiftStart, md.newRelaPaddr, md.phShiftBytes, md.relaSize, md.originalRelaPaddr);
  }

  /** The four copies into a fresh zeroed file. */
  method CopyPieces(exec: seq<Byte>, start: nat, shOff: nat, shift: nat, size: nat, orig: nat) returns (out: array<Byte>)
    requires start <= shOff <= |exec| && orig + size <= |exec|
    ensures fresh(out) && out.Length == |exec| + shift + size
    ensures out[..] == Copies(exec, start, shOff, shift, size, orig)
  {
    var head, middle, table, tail := exec[..start], exec[start..shOff], exec[orig..orig + size], exec[shOff..];
    out := new Byte[|exec| + shift + size](_ => 0);
    ghost var z := out[..];
    assert z == Zeros(|exec| + shift + size);
    CopyIn(out, 0, head);
    ghost var o1 := out[..];
    CopyIn(out, start + shift, middle);
    ghost var o2 := out[..];
    CopyIn(out, shOff + shift, table);
    ghost var o3 := out[..];
    CopyIn(out, shOff + shift + size, tail);
    CopiesInOrder(exec, start, shOff, shift, size, orig, z, o1, o2, o3, out[..]);
  }
}
