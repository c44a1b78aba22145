/** The copy-and-relocate pass of `surgery_elf_help`: each placed section's
    contents are copied into the output file, each of its relocations is
    resolved against the application's own symbols or the host's exports,
    relative references are patched in place, and absolute references
    become RELATIVE dynamic relocation records appended to the copied
    relocation table, whose size and count entries are then raised. */
module MergeRelocations {
  import opened Wrappers
  import opened LittleEndian
  import opened ElfTypes
  import opened AddressTranslation
  import opened Preprocess
  import opened ShiftTables
  import opened MergeLayout


  /** Helper routines of the compiler runtime that are always linked and
      may be left unresolved. */
  const ALWAYS_LINKED: seq<string> := ["__divti3", "__udivti3"]

  // ---------------------------------------------------------------------
  // Resolving a target.

  /** `symbol_by_index`: the application symbol with that index. */
  function SymbolByIndex(syms: seq<AppSymbol>, index: nat): (r: Option<AppSymbol>)
    ensures r.Some? ==> r.value in syms && r.value.index == index
    ensures r.None? ==> forall j :: 0 <= j < |syms| ==> syms[j].index != index
  {
    if syms == [] then None
    else if syms[0].index == index then Some(syms[0])
    else
      var r := SymbolByIndex(syms[1..], index);
      assert forall j :: 1 <= j < |syms| ==> syms[j] == syms[1..][j - 1];
      r
  }

  /** The address a relocation against symbol `index` resolves to: the
      address the layout pass gave it, or else the host's export of the
      same name, moved as every host address was. */
  function TargetAddress(index: nat, syms: seq<AppSymbol>, pl: Placement, md: Metadata): (r: Option<int>)
    ensures index in pl.symbolVaddrs ==> r == Some(pl.symbolVaddrs[index])
    ensures r.None? <==> index !in pl.symbolVaddrs
                         && (SymbolByIndex(syms, index).None? || SymbolByIndex(syms, index).value.name !in md.rocSymbolVaddresses)
  {
    if index in pl.symbolVaddrs then Some(pl.symbolVaddrs[index])
    else match SymbolByIndex(syms, index)
      case Some(sym) =>
        if sym.name in md.rocSymbolVaddresses then Some(UpdateVirtualOffset(md, md.rocSymbolVaddresses[sym.name])) else None
      case None => None
  }

  /** Symbol indices name one symbol each. */
  ghost predicate DistinctIndices(syms: seq<AppSymbol>)
  {
    forall j, k :: 0 <= j < k < |syms| ==> syms[j].index != syms[k].index
  }

  /** A name the host exports resolves to the host's definition, moved,
      even when the application defines it too: the layout pass gives such
      a symbol no application address. */
  lemma {:induction false} HostDefinitionResolves(index: nat, syms: seq<AppSymbol>, pl: Placement, md: Metadata)
    requires SymbolsSound(pl, syms, md) && DistinctIndices(syms)
    requires SymbolByIndex(syms, index).Some? && SymbolByIndex(syms, index).value.name in md.rocSymbolVaddresses
    ensures TargetAddress(index, syms, pl, md)
            == Some(UpdateVirtualOffset(md, md.rocSymbolVaddresses[SymbolByIndex(syms, index).value.name]))
  {
    if index in pl.symbolVaddrs {
      assert false;
    }
  }

  // ---------------------------------------------------------------------
  // One relocation.

  /** `copy_from_slice` into the output file, which panics when the slice
      does not fit. */
  function WriteAt(buf: seq<Byte>, pos: nat, bytes: seq<Byte>): (r: Result<seq<Byte>, LinkError>)
    ensures r.Ok? <==> pos + |bytes| <= |buf|
    ensures r.Ok? ==> r.value == Write(buf, pos, bytes)
  {
    if pos + |bytes| <= |buf| then Ok(Write(buf, pos, bytes)) else Err(SliceOutOfRange)
  }

  /** Where the `count`-th added RELATIVE record goes: just past the copied
      relocation table, in the segment added for it. */
  function RecordSlot(md: Metadata, count: nat): nat
  {
    md.newRelaPaddr + md.relaSize + md.phShiftBytes + count * RELA_ENTRY_SIZE
  }

  /** The relocation resolves and is absolute, so it becomes a record. */
  predicate Emits(rel: AppRelocation, syms: seq<AppSymbol>, pl: Placement, md: Metadata)
  {
    rel.kind == AbsoluteKind && rel.target.Some? && TargetAddress(rel.target.value, syms, pl, md).Some?
  }

  /** The record an absolute relocation at `virtBase` becomes. */
  function RelativeRecord(virtBase: nat, target: int, addend: int): (r: Rela)
    ensures r.sym == 0 && r.rtype == R_X86_64_RELATIVE
  {
    Rela(virtBase, 0, R_X86_64_RELATIVE, target + addend)
  }

  /** The bytes a relocation may change: its record slot when absolute,
      else the field it patches. */
  function Field(rel: AppRelocation, secOffset: nat, count: nat, md: Metadata): (f: (nat, nat))
  {
    if rel.kind == AbsoluteKind then (RecordSlot(md, count), RELA_ENTRY_SIZE) else (secOffset + rel.offset, rel.size / 8)
  }

  /** One relocation of a section placed at `secOffset`/`secVirt`, with
      `count` records added so far. A target that is not a symbol, an
      unresolved symbol other than the always-linked helpers, an
      unsupported kind and a width other than 32 or 64 bits are fatal. */
  function ApplyRelocation(buf: seq<Byte>, count: nat, rel: AppRelocation, secOffset: nat, secVirt: nat,
                           syms: seq<AppSymbol>, pl: Placement, md: Metadata): (r: Result<(seq<Byte>, nat), LinkError>)
    ensures r.Ok? ==> |r.value.0| == |buf|
    ensures r.Ok? ==> r.value.1 == count + (if Emits(rel, syms, pl, md) then 1 else 0)
    ensures r.Ok? ==> var (start, len) := Field(rel, secOffset, count, md);
                      forall i :: 0 <= i < |buf| && !(start <= i < start + len) ==> r.value.0[i] == buf[i]
  {
    match rel.target
    case None => Err(UnsupportedTarget)
    case Some(index) =>
      match TargetAddress(index, syms, pl, md)
      case None =>
        var sym := SymbolByIndex(syms, index);
        if sym.Some? && sym.value.name in ALWAYS_LINKED then Ok((buf, count))
        else Err(UndefinedSymbol)
      case Some(t) => Relocate(buf, count, rel, secOffset, secVirt, t, md)
  }

  /** A relocation whose target resolved to `t`: an absolute one fills the
      next record slot, a relative one is patched at its site. */
  function Relocate(buf: seq<Byte>, count: nat, rel: AppRelocation, secOffset: nat, secVirt: nat, t: int, md: Metadata)
    : (r: Result<(seq<Byte>, nat), LinkError>)
    ensures r.Ok? ==> |r.value.0| == |buf|
    ensures r.Ok? ==> r.value.1 == count + (if rel.kind == AbsoluteKind then 1 else 0)
    ensures r.Ok? ==> var (start, len) := Field(rel, secOffset, count, md);
                      forall i :: 0 <= i < |buf| && !(start <= i < start + len) ==> r.value.0[i] == buf[i]
  {
    var virtBase := secVirt + rel.offset;
    if rel.kind == AbsoluteKind then
      match WriteAt(buf, RecordSlot(md, count), EncodeRela(RelativeRecord(virtBase, t, rel.addend)))
      case Err(e) => Err(e)
      case Ok(b) => Ok((b, count + 1))
    else if rel.kind == OtherKind then Err(UnsupportedKind)
    else
      match PatchField(buf, secOffset + rel.offset, t - virtBase + rel.addend, rel.size)
      case Err(e) => Err(e)
      case Ok(b) => Ok((b, count))
  }

  /** The `size`-bit little-endian write of a relative value (the 32-bit
      one truncated by `as i32`); other widths are fatal. */
  function PatchField(buf: seq<Byte>, base: nat, value: int, size: nat): (r: Result<seq<Byte>, LinkError>)
    ensures r.Ok? <==> (size == 32 || size == 64) && base + size / 8 <= |buf|
    ensures r.Ok? ==> r.value == Write(buf, base, Encode(value, size / 8))
  {
    if size == 32 then WriteAt(buf, base, Encode(value, 4))
    else if size == 64 then WriteAt(buf, base, Encode(value, 8))
    else Err(UnsupportedSize)
  }

  /** A patched field reads back, signed, as the value when it fits. */
  lemma {:induction false} PatchFieldRoundTrip(buf: seq<Byte>, base: nat, value: int, size: nat)
    requires PatchField(buf, base, value, size).Ok?
    requires -(Pow256(size / 8) / 2) <= value < Pow256(size / 8) / 2
    ensures var b, n := PatchField(buf, base, value, size).value, size / 8;
            base + n <= |b| && Signed(Decode(b[base..base + n]), n) == value
  {
    var n := size / 8;
    var b := Write(buf, base, Encode(value, n));
    assert b[base..base + n] == Encode(value, n);
    SignedRoundTrip(value, n);
  }

  /** A resolved relative reference reads back, as the signed field of its
      width, as the distance from the patched address to target plus
      addend, whenever that distance fits the field. */
  lemma {:induction false} RelocatedRelative(buf: seq<Byte>, count: nat, rel: AppRelocation, secOffset: nat, secVirt: nat, t: int, md: Metadata)
    requires rel.kind == RelativeKind || rel.kind == PltRelativeKind
    requires Relocate(buf, count, rel, secOffset, secVirt, t, md).Ok?
    requires var d := t - (secVirt + rel.offset) + rel.addend;
             -(Pow256(rel.size / 8) / 2) <= d < Pow256(rel.size / 8) / 2
    ensures var b := Relocate(buf, count, rel, secOffset, secVirt, t, md).value.0;
            var base, n := secOffset + rel.offset, rel.size / 8;
            base + n <= |b| && secVirt + rel.offset + Signed(Decode(b[base..base + n]), n) == t + rel.addend
  {
    var d := t - (secVirt + rel.offset) + rel.addend;
    var base := secOffset + rel.offset;
    var p := PatchField(buf, base, d, rel.size);
    assert p.Ok?;
    assert Relocate(buf, count, rel, secOffset, secVirt, t, md) == Ok((p.value, count));
    PatchFieldRoundTrip(buf, base, d, rel.size);
  }

  /** A resolved absolute reference becomes a RELATIVE record in the next
      slot, which reads back as: at the patched address, add the load base
      to target plus addend. */
  lemma {:induction false} RelocatedAbsolute(buf: seq<Byte>, count: nat, rel: AppRelocation, secOffset: nat, secVirt: nat, t: int, md: Metadata)
    requires rel.kind == AbsoluteKind
    requires Relocate(buf, count, rel, secOffset, secVirt, t, md).Ok?
    requires FitsRela(RelativeRecord(secVirt + rel.offset, t, rel.addend))
    ensures var b, slot := Relocate(buf, count, rel, secOffset, secVirt, t, md).value.0, RecordSlot(md, count);
            slot + RELA_ENTRY_SIZE <= |b|
            && DecodeRela(b[slot..slot + RELA_ENTRY_SIZE]) == Rela(secVirt + rel.offset, 0, R_X86_64_RELATIVE, t + rel.addend)
  {
    var rec := RelativeRecord(secVirt + rel.offset, t, rel.addend);
    var slot := RecordSlot(md, count);
    var w := WriteAt(buf, slot, EncodeRela(rec));
    var next: nat := count + 1;
    assert w.Ok?;
    assert Relocate(buf, count, rel, secOffset, secVirt, t, md) == Ok((w.value, next));
    RelaRoundTrip(rec);
  }

  /** `RelocatedRelative` for a relocation whose symbol resolves. */
  lemma {:induction false} RelativeRoundTrip(buf: seq<Byte>, count: nat, rel: AppRelocation, secOffset: nat, secVirt: nat,
                          syms: seq<AppSymbol>, pl: Placement, md: Metadata)
    requires rel.kind == RelativeKind || rel.kind == PltRelativeKind
    requires ApplyRelocation(buf, count, rel, secOffset, secVirt, syms, pl, md).Ok?
    requires rel.target.Some? && TargetAddress(rel.target.value, syms, pl, md).Some?
    requires var d := TargetAddress(rel.target.value, syms, pl, md).value - (secVirt + rel.offset) + rel.addend;
             -(Pow256(rel.size / 8) / 2) <= d < Pow256(rel.size / 8) / 2
    ensures var b := ApplyRelocation(buf, count, rel, secOffset, secVirt, syms, pl, md).value.0;
            var base, n := secOffset + rel.offset, rel.size / 8;
            base + n <= |b|
            && secVirt + rel.offset + Signed(Decode(b[base..base + n]), n)
               == TargetAddress(rel.target.value, syms, pl, md).value + rel.addend
  {
    var t := TargetAddress(rel.target.value, syms, pl, md).value;
    assert ApplyRelocation(buf, count, rel, secOffset, secVirt, syms, pl, md)
        == Relocate(buf, count, rel, secOffset, secVirt, t, md);
    RelocatedRelative(buf, count, rel, secOffset, secVirt, t, md);
  }

  /** `RelocatedAbsolute` for a relocation whose symbol resolves. */
  lemma {:induction false} AbsoluteRoundTrip(buf: seq<Byte>, count: nat, rel: AppRelocation, secOffset: nat, secVirt: nat,
                          syms: seq<AppSymbol>, pl: Placement, md: Metadata)
    requires rel.kind == AbsoluteKind
    requires ApplyRelocation(buf, count, rel, secOffset, secVirt, syms, pl, md).Ok?
    requires rel.target.Some? && TargetAddress(rel.target.value, syms, pl, md).Some?
    requires FitsRela(RelativeRecord(secVirt + rel.offset, TargetAddress(rel.target.value, syms, pl, md).value, rel.addend))
    ensures var b := ApplyRelocation(buf, count, rel, secOffset, secVirt, syms, pl, md).value.0;
            var slot := RecordSlot(md, count);
            slot + RELA_ENTRY_SIZE <= |b|
            && DecodeRela(b[slot..slot + RELA_ENTRY_SIZE])
               == Rela(secVirt + rel.offset, 0, R_X86_64_RELATIVE, TargetAddress(rel.target.value, syms, pl, md).value + rel.addend)
  {
    var t := TargetAddress(rel.target.value, syms, pl, md).value;
    assert ApplyRelocation(buf, count, rel, secOffset, secVirt, syms, pl, md)
        == Relocate(buf, count, rel, secOffset, secVirt, t, md);
    RelocatedAbsolute(buf, count, rel, secOffset, secVirt, t, md);
  }

  // ---------------------------------------------------------------------
  // A section, and all sections.

  /** How many of `rels` become records. */
  function Emitted(rels: seq<AppRelocation>, syms: seq<AppSymbol>, pl: Placement, md: Metadata): (n: nat)
    ensures n <= AbsoluteCount(rels)
  {
    if rels == [] then 0
    else Emitted(rels[..|rels| - 1], syms, pl, md) + (if Emits(rels[|rels| - 1], syms, pl, md) then 1 else 0)
  }

  /** How many of `rels` are absolute. */
  function AbsoluteCount(rels: seq<AppRelocation>): nat
  {
    if rels == [] then 0
    else AbsoluteCount(rels[..|rels| - 1]) + (if rels[|rels| - 1].kind == AbsoluteKind then 1 else 0)
  }

  /** The relocation loop of one section. */
  function ApplyRelocations(buf: seq<Byte>, count: nat, rels: seq<AppRelocation>, secOffset: nat, secVirt: nat,
                            syms: seq<AppSymbol>, pl: Placement, md: Metadata): (r: Result<(seq<Byte>, nat), LinkError>)
    ensures r.Ok? ==> |r.value.0| == |buf| && r.value.1 == count + Emitted(rels, syms, pl, md)
  {
    if rels == [] then Ok((buf, count))
    else
      match ApplyRelocations(buf, count, rels[..|rels| - 1], secOffset, secVirt, syms, pl, md)
      case Err(e) => Err(e)
      case Ok((b, n)) => ApplyRelocation(b, n, rels[|rels| - 1], secOffset, secVirt, syms, pl, md)
  }

  lemma {:induction false} ApplyRelocationsErrSticks(buf: seq<Byte>, count: nat, rels: seq<AppRelocation>, secOffset: nat,
                                                     secVirt: nat, syms: seq<AppSymbol>, pl: Placement, md: Metadata, k: nat)
    requires k <= |rels| && ApplyRelocations(buf, count, rels[..k], secOffset, secVirt, syms, pl, md).Err?
    ensures ApplyRelocations(buf, count, rels, secOffset, secVirt, syms, pl, md).Err?
    decreases |rels| - k
  {
    if k < |rels| {
      assert rels[..k + 1][..k] == rels[..k];
      ApplyRelocationsErrSticks(buf, count, rels, secOffset, secVirt, syms, pl, md, k + 1);
    } else {
      assert rels[..k] == rels;
    }
  }

  /** A placed section: its contents copied at its offset, then its
      relocations applied. */
  function ResolveSection(buf: seq<Byte>, count: nat, sec: AppSection, syms: seq<AppSymbol>, pl: Placement, md: Metadata)
    : (r: Result<(seq<Byte>, nat), LinkError>)
    requires sec.index in pl.sectionOffsets
    ensures r.Ok? ==> |r.value.0| == |buf| && r.value.1 == count + Emitted(sec.relocations, syms, pl, md)
    ensures r.Ok? ==> pl.sectionOffsets[sec.index].0 + |sec.data| <= |buf|
    ensures r.Ok? && sec.relocations == [] ==> r.value.0 == Write(buf, pl.sectionOffsets[sec.index].0, sec.data)
  {
    var (off, virt) := pl.sectionOffsets[sec.index];
    match WriteAt(buf, off, sec.data)
    case Err(e) => Err(e)
    case Ok(b) => ApplyRelocations(b, count, sec.relocations, off, virt, syms, pl, md)
  }

  predicate AllPlaced(secs: seq<AppSection>, pl: Placement)
  {
    forall k :: 0 <= k < |secs| ==> secs[k].index in pl.sectionOffsets
  }

  /** How many relocations of `secs` become records, and how many are absolute. */
  function EmittedIn(secs: seq<AppSection>, syms: seq<AppSymbol>, pl: Placement, md: Metadata): (n: nat)
    ensures n <= AbsoluteIn(secs)
  {
    if secs == [] then 0
    else EmittedIn(secs[..|secs| - 1], syms, pl, md) + Emitted(secs[|secs| - 1].relocations, syms, pl, md)
  }

  function AbsoluteIn(secs: seq<AppSection>): nat
  {
    if secs == [] then 0 else AbsoluteIn(secs[..|secs| - 1]) + AbsoluteCount(secs[|secs| - 1].relocations)
  }

  /** The section loop. */
  function ResolveSections(buf: seq<Byte>, count: nat, secs: seq<AppSection>, syms: seq<AppSymbol>, pl: Placement, md: Metadata)
    : (r: Result<(seq<Byte>, nat), LinkError>)
    requires AllPlaced(secs, pl)
    ensures r.Ok? ==> |r.value.0| == |buf| && r.value.1 == count + EmittedIn(secs, syms, pl, md)
  {
    if secs == [] then Ok((buf, count))
    else
      match ResolveSections(buf, count, secs[..|secs| - 1], syms, pl, md)
      case Err(e) => Err(e)
      case Ok((b, n)) => ResolveSection(b, n, secs[|secs| - 1], syms, pl, md)
  }

  lemma {:induction false} ResolveSectionsErrSticks(buf: seq<Byte>, count: nat, secs: seq<AppSection>, syms: seq<AppSymbol>,
                                                    pl: Placement, md: Metadata, k: nat)
    requires AllPlaced(secs, pl)
    requires k <= |secs| && ResolveSections(buf, count, secs[..k], syms, pl, md).Err?
    ensures ResolveSections(buf, count, secs, syms, pl, md).Err?
    decreases |secs| - k
  {
    if k < |secs| {
      assert secs[..k + 1][..k] == secs[..k];
      ResolveSectionsErrSticks(buf, count, secs, syms, pl, md, k + 1);
    } else {
      assert secs[..k] == secs;
    }
  }

  /** With room reserved for every absolute relocation, and the section
      header table found where the relocation copy ends, every added record
      lies in that room: past the old table, before the copied data. */
  lemma {:induction false} RecordsFitRoom(buf: seq<Byte>, secs: seq<AppSection>, syms: seq<AppSymbol>, pl: Placement, md: Metadata,
                       shOffset: nat, absoluteRelocationCount: nat, i: nat)
    requires md.loadAlignConstraint > 0 && AllPlaced(secs, pl)
    requires AbsoluteIn(secs) <= absoluteRelocationCount
    requires shOffset == md.newRelaPaddr + md.relaSize + md.phShiftBytes
    requires ResolveSections(buf, 0, secs, syms, pl, md).Ok? && i < ResolveSections(buf, 0, secs, syms, pl, md).value.1
    ensures shOffset <= RecordSlot(md, i)
    ensures RecordSlot(md, i) + RELA_ENTRY_SIZE <= DataStart(shOffset, absoluteRelocationCount, md).offset
  {
    assert i + 1 <= absoluteRelocationCount;
    assert (i + 1) * RELA_ENTRY_SIZE <= absoluteRelocationCount * RELA_ENTRY_SIZE;
  }

  /** The `count`-th record sits `relaSize + 24 * count` bytes into the
      segment added for the relocation copy, so a segment and a DT_RELASZ
      grown by `24 * n` cover exactly the records below `n`. */
  lemma {:induction false} RecordInRelaSegment(md: Metadata, count: nat, n: nat)
    requires count < n
    ensures RecordSlot(md, count) == RelaSegment(md).pOffset + md.relaSize + count * RELA_ENTRY_SIZE
    ensures RecordSlot(md, count) + RELA_ENTRY_SIZE <= RelaSegment(md).pOffset + md.relaSize + n * RELA_ENTRY_SIZE
  {
    assert (count + 1) * RELA_ENTRY_SIZE <= n * RELA_ENTRY_SIZE;
  }

  // ---------------------------------------------------------------------
  // The loops over the output file.

  /** `copy_from_slice`, byte by byte. */
  method WriteBytes(buf: array<Byte>, pos: nat, bytes: seq<Byte>)
    requires pos + |bytes| <= buf.Length
    modifies buf
    ensures buf[..] == Write(old(buf[..]), pos, bytes)
  {
    var k := 0;
    while k < |bytes|
      invariant k <= |bytes|
      invariant forall i :: 0 <= i < buf.Length && !(pos <= i < pos + k) ==> buf[i] == old(buf[i])
      invariant forall i :: pos <= i < pos + k ==> buf[i] == bytes[i - pos]
    {
      buf[pos + k] := bytes[k];
      k := k + 1;
    }
    assert buf[..] == Write(old(buf[..]), pos, bytes);
  }

  /** One relocation, on the output file. */
  method ResolveRelocation(buf: array<Byte>, count: nat, rel: AppRelocation, secOffset: nat, secVirt: nat,
                           syms: seq<AppSymbol>, pl: Placement, md: Metadata) returns (r: Result<nat, LinkError>)
    modifies buf
    ensures var spec := ApplyRelocation(old(buf[..]), count, rel, secOffset, secVirt, syms, pl, md);
            (r.Err? <==> spec.Err?) && (r.Ok? ==> spec == Ok((buf[..], r.value)))
  {
    if rel.target.None? {
      return Err(UnsupportedTarget);
    }
    var index := rel.target.value;
    var targetOffset := TargetAddress(index, syms, pl, md);
    if targetOffset.None? {
      var sym := SymbolByIndex(syms, index);
      if sym.Some? && sym.value.name in ALWAYS_LINKED {
        return Ok(count);
      }
      return Err(UndefinedSymbol);
    }
    var t := targetOffset.value;
    assert ApplyRelocation(old(buf[..]), count, rel, secOffset, secVirt, syms, pl, md)
        == Relocate(old(buf[..]), count, rel, secOffset, secVirt, t, md);
    r := RelocateAt(buf, count, rel, secOffset, secVirt, t, md);
  }

  /** One relocation whose target resolved to `t`, on the output file. */
  method RelocateAt(buf: array<Byte>, count: nat, rel: AppRelocation, secOffset: nat, secVirt: nat, t: int, md: Metadata)
    returns (r: Result<nat, LinkError>)
    modifies buf
    ensures var spec := Relocate(old(buf[..]), count, rel, secOffset, secVirt, t, md);
            (r.Err? <==> spec.Err?) && (r.Ok? ==> spec == Ok((buf[..], r.value)))
  {
    var virtBase := secVirt + rel.offset;
    var base := secOffset + rel.offset;
    var bytes: seq<Byte>;
    var pos: nat;
    if rel.kind == AbsoluteKind {
      pos := RecordSlot(md, count);
      bytes := EncodeRela(RelativeRecord(virtBase, t, rel.addend));
    } else if rel.kind == OtherKind {
      return Err(UnsupportedKind);
    } else if rel.size == 32 {
      pos, bytes := base, Encode(t - virtBase + rel.addend, 4);
    } else if rel.size == 64 {
      pos, bytes := base, Encode(t - virtBase + rel.addend, 8);
    } else {
      return Err(UnsupportedSize);
    }
    if pos + |bytes| > buf.Length {
      return Err(SliceOutOfRange);
    }
    WriteBytes(buf, pos, bytes);
    r := Ok(if rel.kind == AbsoluteKind then count + 1 else count);
  }

  /** The relocation loop of a section placed at `secOffset`/`secVirt`. */
  method ResolveSectionRelocations(buf: array<Byte>, count: nat, rels: seq<AppRelocation>, secOffset: nat, secVirt: nat,
                                   syms: seq<AppSymbol>, pl: Placement, md: Metadata) returns (r: Result<nat, LinkError>)
    modifies buf
    ensures var spec := ApplyRelocations(old(buf[..]), count, rels, secOffset, secVirt, syms, pl, md);
            (r.Err? <==> spec.Err?) && (r.Ok? ==> spec == Ok((buf[..], r.value)))
  {
    var n := count;
    var k := 0;
    while k < |rels|
      invariant k <= |rels|
      invariant ApplyRelocations(old(buf[..]), count, rels[..k], secOffset, secVirt, syms, pl, md) == Ok((buf[..], n))
    {
      assert rels[..k + 1][..k] == rels[..k];
      var step := ResolveRelocation(buf, n, rels[k], secOffset, secVirt, syms, pl, md);
      if step.Err? {
        ApplyRelocationsErrSticks(old(buf[..]), count, rels, secOffset, secVirt, syms, pl, md, k + 1);
        return Err(step.error);
      }
      n := step.value;
      k := k + 1;
    }
    assert rels[..k] == rels;
    r := Ok(n);
  }

  /** The section loop: the number of records added, or the fatal error. */
  method ResolveAllSections(buf: array<Byte>, secs: seq<AppSection>, syms: seq<AppSymbol>, pl: Placement, md: Metadata)
    returns (r: Result<nat, LinkError>)
    requires AllPlaced(secs, pl)
    modifies buf
    ensures var spec := ResolveSections(old(buf[..]), 0, secs, syms, pl, md);
            (r.Err? <==> spec.Err?) && (r.Ok? ==> spec == Ok((buf[..], r.value)))
  {
    var n := 0;
    var k := 0;
    while k < |secs|
      invariant k <= |secs|
      invariant ResolveSections(old(buf[..]), 0, secs[..k], syms, pl, md) == Ok((buf[..], n))
    {
      assert secs[..k + 1][..k] == secs[..k];
      var sec := secs[k];
      var (off, virt) := pl.sectionOffsets[sec.index];
      if off + |sec.data| > buf.Length {
        ResolveSectionsErrSticks(old(buf[..]), 0, secs, syms, pl, md, k + 1);
        return Err(SliceOutOfRange);
      }
      WriteBytes(buf, off, sec.data);
      var step := ResolveSectionRelocations(buf, n, sec.relocations, off, virt, syms, pl, md);
      if step.Err? {
        ResolveSectionsErrSticks(old(buf[..]), 0, secs, syms, pl, md, k + 1);
        return Err(step.error);
      }
      n := step.value;
      k := k + 1;
    }
    assert secs[..k] == secs;
    r := Ok(n);
  }

  // ---------------------------------------------------------------------
  // The size and count entries.

  /** A dynamic entry once `count` records were added: DT_RELASZ grows by
      their size and DT_RELACOUNT by their number, as `u64` sums. */
  function BumpRela(d: DynEntry, count: nat): (r: DynEntry)
    ensures r.tag == d.tag
    ensures Tag32(d) != DT_RELASZ && Tag32(d) != DT_RELACOUNT ==> r == d
  {
    if Tag32(d) == DT_RELASZ then d.(val := Wrap64(d.val + count * RELA_ENTRY_SIZE))
    else if Tag32(d) == DT_RELACOUNT then d.(val := Wrap64(d.val + count))
    else d
  }

  /** Without wrap-around, the raised DT_RELASZ covers the copied table and
      every added record, and the raised DT_RELACOUNT counts the added
      records as RELATIVE ones. */
  lemma {:induction false} BumpCoversRecords(md: Metadata, count: nat, i: nat)
    requires i < count && md.relaSize + count * RELA_ENTRY_SIZE < TWO_64
    ensures var d := BumpRela(DynEntry(DT_RELASZ, md.relaSize), count);
            RecordSlot(md, i) + RELA_ENTRY_SIZE <= RelaSegment(md).pOffset + d.val
    ensures forall c: nat :: c + count < TWO_64 ==> BumpRela(DynEntry(DT_RELACOUNT, c), count).val == c + count
  {
    assert Tag32(DynEntry(DT_RELASZ, md.relaSize)) == DT_RELASZ;
    RecordInRelaSegment(md, i, count);
    forall c: nat | c + count < TWO_64
      ensures BumpRela(DynEntry(DT_RELACOUNT, c), count).val == c + count
    {
      assert Tag32(DynEntry(DT_RELACOUNT, c)) == DT_RELACOUNT;
    }
  }

  /** The loop over the shifted dynamic section. */
  method BumpRelaEntries(dyns: array<DynEntry>, count: nat)
    modifies dyns
    ensures forall i :: 0 <= i < dyns.Length ==> dyns[i] == BumpRela(old(dyns[i]), count)
  {
    MapInPlace(dyns, d => BumpRela(d, count));
  }
}
