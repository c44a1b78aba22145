/** The layout pass of `surgery_elf_help`: the application's read-only data,
    zero-initialized data and code sections are placed one after another
    past the host's section header table, each at a file offset aligned to
    0x40 and at a virtual address congruent to it modulo the load alignment;
    the addresses of the symbols they define are recorded as they go. */
module MergeLayout {
  import opened Wrappers
  import opened LittleEndian
  import opened ElfTypes
  import opened Alignment
  import opened Preprocess
  import opened RocSymbols


  /** A relocation of an application section: where it applies (relative
      to the section), its target (`None` for a target that is not a
      symbol), its kind, its width in bits and its addend. */
  datatype RelocKind = RelativeKind | PltRelativeKind | AbsoluteKind | OtherKind
  datatype AppRelocation = AppRelocation(offset: nat, target: Option<nat>, kind: RelocKind, size: nat, addend: int)

  /** A section of the application object as the object reader reports
      it: index, name (empty when unreadable), memory size, file size
      (`None` when it has no file range), contents and relocations. */
  datatype AppSection = AppSection(index: nat, name: string, size: nat, fileSize: Option<nat>,
                                   data: seq<Byte>, relocations: seq<AppRelocation>)

  /** A symbol of the application object: index, name (empty when
      unreadable), defining section, address within it and size. */
  datatype AppSymbol = AppSymbol(index: nat, name: string, section: Option<nat>, address: nat, size: nat)

  predicate HasSuffix(s: string, suffix: string)
  {
    |suffix| <= |s| && s[|s| - |suffix|..] == suffix
  }

  /** The three groups of sections that are copied, in the order they are placed. */
  datatype Group = ReadOnly | ZeroInit | Code

  predicate InGroup(sec: AppSection, g: Group)
  {
    match g
    case ReadOnly => HasPrefix(sec.name, ".rodata") || HasSuffix(sec.name, ".rel.ro")
    case ZeroInit => HasPrefix(sec.name, ".bss")
    case Code => HasPrefix(sec.name, ".text")
  }

  /** The sections of `g`, in object order. */
  function Select(secs: seq<AppSection>, g: Group): (r: seq<AppSection>)
    ensures forall k :: 0 <= k < |r| ==> r[k] in secs && InGroup(r[k], g)
    ensures |r| <= |secs|
  {
    if secs == [] then []
    else
      var r := Select(secs[..|secs| - 1], g);
      var last := secs[|secs| - 1];
      assert forall x :: x in secs[..|secs| - 1] ==> x in secs;
      if InGroup(last, g) then r + [last] else r
  }

  /** Every section of `g` is selected. */
  lemma {:induction false} SelectComplete(secs: seq<AppSection>, g: Group, i: nat)
    requires i < |secs| && InGroup(secs[i], g)
    ensures secs[i] in Select(secs, g)
  {
    if i < |secs| - 1 {
      assert secs[..|secs| - 1][i] == secs[i];
      SelectComplete(secs[..|secs| - 1], g, i);
    }
  }

  /** The placement order: read-only data, then zero-initialized data
      (which must come after it), then code. */
  function PlacementOrder(secs: seq<AppSection>): seq<AppSection>
  {
    Select(secs, ReadOnly) + Select(secs, ZeroInit) + Select(secs, Code)
  }

  /** The file and virtual cursors. */
  datatype Cursor = Cursor(offset: nat, virt: nat)

  /** Where a section goes from cursor `c`: the file offset rounded up to
      0x40, the address rounded up to agree with it modulo `align`. */
  function PlaceAt(c: Cursor, align: nat): (p: Cursor)
    requires align > 0
    ensures p.offset % MIN_SECTION_ALIGNMENT == 0 && c.offset <= p.offset < c.offset + MIN_SECTION_ALIGNMENT
    ensures p.virt % align == p.offset % align && c.virt <= p.virt < c.virt + align
  {
    var offset := AlignByConstraint(c.offset, MIN_SECTION_ALIGNMENT);
    Cursor(offset, AlignToOffsetByConstraint(c.virt, offset, align))
  }

  /** The size of a section's file range. */
  function FileSize(sec: AppSection): nat
  {
    match sec.fileSize
    case Some(n) => n
    case None => 0
  }

  /** The cursors past a section placed at `p`. A zero-initialized section
      takes address space only; any other section must take as many bytes
      in the file as in memory. */
  function Advance(p: Cursor, sec: AppSection): (r: Result<Cursor, LinkError>)
    ensures r.Err? <==> !InGroup(sec, ZeroInit) && FileSize(sec) != sec.size
    ensures r.Ok? ==> r.value.virt == p.virt + sec.size
    ensures r.Ok? && InGroup(sec, ZeroInit) ==> r.value.offset == p.offset
    ensures r.Ok? && !InGroup(sec, ZeroInit) ==> r.value.offset == p.offset + sec.size
  {
    if InGroup(sec, ZeroInit) then Ok(Cursor(p.offset, p.virt + sec.size))
    else if FileSize(sec) != sec.size then
      Err(SizeMismatch)
    else Ok(Cursor(p.offset + FileSize(sec), p.virt + sec.size))
  }

  /** What the layout pass records: each placed section's file offset and
      address, each resolved application symbol's address (by symbol
      index), and the address and size of each application function. */
  datatype Placement = Placement(sectionOffsets: map<nat, (nat, nat)>, symbolVaddrs: map<nat, nat>,
                                 appFuncVaddrs: map<string, nat>, appFuncSizes: map<string, nat>)

  /** One symbol of a section placed at address `virt`. A name the host
      defines keeps the host's definition: it gets no application address. */
  function RecordSymbol(pl: Placement, sym: AppSymbol, secIndex: nat, virt: nat, md: Metadata): (r: Placement)
    ensures r.sectionOffsets == pl.sectionOffsets
    ensures sym.section != Some(secIndex) ==> r == pl
  {
    if sym.section != Some(secIndex) then pl
    else
      var vaddrs := if sym.name !in md.rocSymbolVaddresses then pl.symbolVaddrs[sym.index := virt + sym.address] else pl.symbolVaddrs;
      if sym.name in md.appFunctions then
        Placement(pl.sectionOffsets, vaddrs, pl.appFuncVaddrs[sym.name := virt + sym.address], pl.appFuncSizes[sym.name := sym.size])
      else pl.(symbolVaddrs := vaddrs)
  }

  /** The symbol loop for a section placed at `virt`. */
  function RecordSymbols(pl: Placement, syms: seq<AppSymbol>, secIndex: nat, virt: nat, md: Metadata): (r: Placement)
    ensures r.sectionOffsets == pl.sectionOffsets
  {
    if syms == [] then pl
    else RecordSymbol(RecordSymbols(pl, syms[..|syms| - 1], secIndex, virt, md), syms[|syms| - 1], secIndex, virt, md)
  }

  /** One pass of the section loop from cursor `c`: the section is placed,
      its symbols recorded, and the cursors advanced past it. */
  function PlaceSection(c: Cursor, pl: Placement, sec: AppSection, syms: seq<AppSymbol>, md: Metadata)
    : Result<(Cursor, Placement), LinkError>
    requires md.loadAlignConstraint > 0
  {
    var p := PlaceAt(c, md.loadAlignConstraint);
    var pl' := RecordSymbols(pl.(sectionOffsets := pl.sectionOffsets[sec.index := (p.offset, p.virt)]), syms, sec.index, p.virt, md);
    match Advance(p, sec)
    case Err(e) => Err(e)
    case Ok(next) => Ok((next, pl'))
  }

  /** The section loop over `secs` from cursor `c`: the final cursor and
      what was recorded. */
  function PlaceSections(c: Cursor, pl: Placement, secs: seq<AppSection>, syms: seq<AppSymbol>, md: Metadata)
    : Result<(Cursor, Placement), LinkError>
    requires md.loadAlignConstraint > 0
  {
    if secs == [] then Ok((c, pl))
    else
      var prev := PlaceSections(c, pl, secs[..|secs| - 1], syms, md);
      if prev.Err? then prev
      else PlaceSection(prev.value.0, prev.value.1, secs[|secs| - 1], syms, md)
  }

  /** Once a prefix of the sections fails, the whole loop fails. */
  lemma {:induction false} PlaceSectionsErrSticks(c: Cursor, pl: Placement, secs: seq<AppSection>, syms: seq<AppSymbol>,
                                                  md: Metadata, k: nat)
    requires md.loadAlignConstraint > 0
    requires k <= |secs| && PlaceSections(c, pl, secs[..k], syms, md).Err?
    ensures PlaceSections(c, pl, secs, syms, md).Err?
    decreases |secs| - k
  {
    if k < |secs| {
      assert secs[..k + 1][..k] == secs[..k];
      assert PlaceSections(c, pl, secs[..k + 1], syms, md) == PlaceSections(c, pl, secs[..k], syms, md);
      PlaceSectionsErrSticks(c, pl, secs, syms, md, k + 1);
    } else {
      assert secs[..k] == secs;
    }
  }

  /** The inner loop over the symbols. */
  method RecordSectionSymbols(pl: Placement, syms: seq<AppSymbol>, secIndex: nat, virt: nat, md: Metadata)
    returns (pl': Placement)
    ensures pl' == RecordSymbols(pl, syms, secIndex, virt, md)
  {
    pl' := pl;
    var k := 0;
    while k < |syms|
      invariant k <= |syms|
      invariant pl' == RecordSymbols(pl, syms[..k], secIndex, virt, md)
    {
      assert syms[..k + 1][..k] == syms[..k];
      var sym := syms[k];
      if sym.section == Some(secIndex) {
        var name := sym.name;
        if name !in md.rocSymbolVaddresses {
          pl' := pl'.(symbolVaddrs := pl'.symbolVaddrs[sym.index := virt + sym.address]);
        }
        if name in md.appFunctions {
          pl' := pl'.(appFuncVaddrs := pl'.appFuncVaddrs[name := virt + sym.address],
                      appFuncSizes := pl'.appFuncSizes[name := sym.size]);
        }
      }
      k := k + 1;
    }
    assert syms[..k] == syms;
  }

  /** One pass of the section loop: the file offset is rounded up to 0x40
      and the address to agree with it, the section and its symbols are
      recorded, and the cursors move past it. */
  method PlaceOneSection(c: Cursor, pl: Placement, sec: AppSection, syms: seq<AppSymbol>, md: Metadata)
    returns (r: Result<(Cursor, Placement), LinkError>)
    requires md.loadAlignConstraint > 0
    ensures r == PlaceSection(c, pl, sec, syms, md)
  {
    var offset := AlignByConstraint(c.offset, MIN_SECTION_ALIGNMENT);
    var virt := AlignToOffsetByConstraint(c.virt, offset, md.loadAlignConstraint);
    var pl' := pl.(sectionOffsets := pl.sectionOffsets[sec.index := (offset, virt)]);
    pl' := RecordSectionSymbols(pl', syms, sec.index, virt, md);
    var sectionSize := FileSize(sec);
    if HasPrefix(sec.name, ".bss") {
      virt := virt + sec.size;
    } else if sectionSize != sec.size {
      return Err(SizeMismatch);
    } else {
      offset := offset + sectionSize;
      virt := virt + sec.size;
    }
    r := Ok((Cursor(offset, virt), pl'));
  }

  /** The section loop: each section is placed, its symbols recorded, and
      the cursors advanced past it. */
  method PlaceAll(c: Cursor, secs: seq<AppSection>, syms: seq<AppSymbol>, md: Metadata)
    returns (r: Result<(Cursor, Placement), LinkError>)
    requires md.loadAlignConstraint > 0
    ensures r.Err? <==> PlaceSections(c, Placement(map[], map[], map[], map[]), secs, syms, md).Err?
    ensures r.Ok? ==> r == PlaceSections(c, Placement(map[], map[], map[], map[]), secs, syms, md)
  {
    var pl := Placement(map[], map[], map[], map[]);
    var cur := c;
    var i := 0;
    while i < |secs|
      invariant i <= |secs|
      invariant PlaceSections(c, Placement(map[], map[], map[], map[]), secs[..i], syms, md) == Ok((cur, pl))
    {
      assert secs[..i + 1][..i] == secs[..i];
      var step := PlaceOneSection(cur, pl, secs[i], syms, md);
      if step.Err? {
        r := Err(step.error);
        PlaceSectionsErrSticks(c, Placement(map[], map[], map[], map[]), secs, syms, md, i + 1);
        return;
      }
      cur, pl := step.value.0, step.value.1;
      i := i + 1;
    }
    assert secs[..i] == secs;
    r := Ok((cur, pl));
  }

  const NoPlacement := Placement(map[], map[], map[], map[])

  /** The geometry of a successful section loop from `c`: every section is
      recorded, each at a 0x40-aligned file offset with an address that
      agrees with it modulo the load alignment, and all of them between
      the starting and the final cursors, which never move backwards. */
  lemma {:induction false} PlacementGeometry(c: Cursor, secs: seq<AppSection>, syms: seq<AppSymbol>, md: Metadata)
    requires md.loadAlignConstraint > 0 && PlaceSections(c, NoPlacement, secs, syms, md).Ok?
    ensures var (end, pl) := PlaceSections(c, NoPlacement, secs, syms, md).value;
            c.offset <= end.offset && c.virt <= end.virt
            && (forall k :: 0 <= k < |secs| ==> secs[k].index in pl.sectionOffsets)
            && (forall i :: i in pl.sectionOffsets ==>
                  pl.sectionOffsets[i].0 % MIN_SECTION_ALIGNMENT == 0
                  && pl.sectionOffsets[i].1 % md.loadAlignConstraint == pl.sectionOffsets[i].0 % md.loadAlignConstraint
                  && c.offset <= pl.sectionOffsets[i].0 <= end.offset && c.virt <= pl.sectionOffsets[i].1 <= end.virt)
  {
    if secs != [] {
      var init := secs[..|secs| - 1];
      var sec := secs[|secs| - 1];
      PlacementGeometry(c, init, syms, md);
      var (c0, pl0) := PlaceSections(c, NoPlacement, init, syms, md).value;
      var p := PlaceAt(c0, md.loadAlignConstraint);
      var (end, pl) := PlaceSections(c, NoPlacement, secs, syms, md).value;
      assert pl.sectionOffsets == pl0.sectionOffsets[sec.index := (p.offset, p.virt)];
      assert end == Advance(p, sec).value;
      forall k | 0 <= k < |secs|
        ensures secs[k].index in pl.sectionOffsets
      {
        if k < |init| {
          assert init[k] == secs[k];
        }
      }
    }
  }

  /** What the symbol maps may hold: an address only for a symbol whose
      name the host does not define, and an application function's address
      and size together. */
  ghost predicate SymbolsSound(pl: Placement, syms: seq<AppSymbol>, md: Metadata)
  {
    (forall k :: k in pl.symbolVaddrs ==>
       exists j :: 0 <= j < |syms| && syms[j].index == k && syms[j].name !in md.rocSymbolVaddresses)
    && (forall name :: name in pl.appFuncVaddrs ==> name in md.appFunctions)
    && pl.appFuncVaddrs.Keys == pl.appFuncSizes.Keys
  }

  lemma {:induction false} RecordSymbolsSound(pl: Placement, syms: seq<AppSymbol>, all: seq<AppSymbol>, secIndex: nat, virt: nat, md: Metadata)
    requires SymbolsSound(pl, all, md)
    requires forall j :: 0 <= j < |syms| ==> syms[j] in all
    ensures SymbolsSound(RecordSymbols(pl, syms, secIndex, virt, md), all, md)
  {
    if syms != [] {
      var init := syms[..|syms| - 1];
      assert forall j :: 0 <= j < |init| ==> init[j] == syms[j];
      RecordSymbolsSound(pl, init, all, secIndex, virt, md);
      var sym := syms[|syms| - 1];
      var j :| 0 <= j < |all| && all[j] == sym;
    }
  }

  /** Host definitions take precedence: no symbol whose name the host
      exports is given an application address, and only application
      functions get a function address, always with a size. */
  lemma {:induction false} HostDefinitionsWin(c: Cursor, secs: seq<AppSection>, syms: seq<AppSymbol>, md: Metadata)
    requires md.loadAlignConstraint > 0 && PlaceSections(c, NoPlacement, secs, syms, md).Ok?
    ensures SymbolsSound(PlaceSections(c, NoPlacement, secs, syms, md).value.1, syms, md)
  {
    if secs != [] {
      var init := secs[..|secs| - 1];
      var sec := secs[|secs| - 1];
      HostDefinitionsWin(c, init, syms, md);
      var (c0, pl0) := PlaceSections(c, NoPlacement, init, syms, md).value;
      var p := PlaceAt(c0, md.loadAlignConstraint);
      RecordSymbolsSound(pl0.(sectionOffsets := pl0.sectionOffsets[sec.index := (p.offset, p.virt)]), syms, syms, sec.index, p.virt, md);
    }
  }

  /** Rust's ordering of `(offset, vaddr)` pairs. */
  predicate LexLe(a: (nat, nat), b: (nat, nat))
  {
    a.0 < b.0 || (a.0 == b.0 && a.1 <= b.1)
  }

  /** `.min()` over pairs. */
  function MinPair(ps: seq<(nat, nat)>): (m: (nat, nat))
    requires ps != []
    ensures m in ps && forall k :: 0 <= k < |ps| ==> LexLe(m, ps[k])
  {
    if |ps| == 1 then ps[0]
    else
      var m := MinPair(ps[1..]);
      assert forall k :: 1 <= k < |ps| ==> ps[k] == ps[1..][k - 1];
      if LexLe(ps[0], m) then ps[0] else m
  }

  /** The placements of `texts`, each of which was recorded. */
  function Placements(texts: seq<AppSection>, offsets: map<nat, (nat, nat)>): (r: seq<(nat, nat)>)
    requires forall k :: 0 <= k < |texts| ==> texts[k].index in offsets
    ensures |r| == |texts|
  {
    seq(|texts|, k requires 0 <= k < |texts| => offsets[texts[k].index])
  }

  /** The outcome of the layout pass: where the copied data begins in the
      file and in memory, the final cursors, what was recorded, and where
      the code begins. */
  datatype AppLayout = AppLayout(rodataOffset: nat, rodataVaddr: nat, end: Cursor, placement: Placement,
                                 textOffset: nat, textVaddr: nat)

  /** The start of the copied data: past the section header table and room
      for one relocation record per absolute relocation, rounded up. */
  function DataStart(shOffset: nat, absoluteRelocationCount: nat, md: Metadata): (c: Cursor)
    requires md.loadAlignConstraint > 0
    ensures c.offset % MIN_SECTION_ALIGNMENT == 0 && shOffset + absoluteRelocationCount * RELA_ENTRY_SIZE <= c.offset
    ensures c.virt % md.loadAlignConstraint == c.offset % md.loadAlignConstraint && md.lastVaddr <= c.virt
  {
    var offset := AlignByConstraint(shOffset + absoluteRelocationCount * RELA_ENTRY_SIZE, MIN_SECTION_ALIGNMENT);
    Cursor(offset, AlignToOffsetByConstraint(md.lastVaddr, offset, md.loadAlignConstraint))
  }

  /** `l` is what the layout pass yields for these inputs: the data starts
      at the reserved start, the sections are placed in order, every code
      section is placed, and the code begins at the least code placement. */
  ghost predicate Laid(l: AppLayout, shOffset: nat, absoluteRelocationCount: nat, secs: seq<AppSection>,
                       syms: seq<AppSymbol>, md: Metadata)
    requires md.loadAlignConstraint > 0
  {
    var start := DataStart(shOffset, absoluteRelocationCount, md);
    var placed := PlaceSections(start, NoPlacement, PlacementOrder(secs), syms, md);
    placed.Ok? && Select(secs, Code) != []
    && l.rodataOffset == start.offset && l.rodataVaddr == start.virt
    && l.end == placed.value.0 && l.placement == placed.value.1
    && (forall k :: 0 <= k < |Select(secs, Code)| ==> Select(secs, Code)[k].index in placed.value.1.sectionOffsets)
    && (l.textOffset, l.textVaddr) == MinPair(Placements(Select(secs, Code), placed.value.1.sectionOffsets))
  }

  /** The layout pass. It fails when the application has no code, or when
      a section other than zero-initialized data has a file size different
      from its memory size. */
  method LayOutApp(shOffset: nat, absoluteRelocationCount: nat, secs: seq<AppSection>, syms: seq<AppSymbol>, md: Metadata)
    returns (r: Result<AppLayout, LinkError>)
    requires md.loadAlignConstraint > 0
    ensures var start := DataStart(shOffset, absoluteRelocationCount, md);
            r.Err? <==> Select(secs, Code) == [] || PlaceSections(start, NoPlacement, PlacementOrder(secs), syms, md).Err?
    ensures r.Ok? ==> Laid(r.value, shOffset, absoluteRelocationCount, secs, syms, md)
  {
    var start := DataStart(shOffset, absoluteRelocationCount, md);
    var texts := Select(secs, Code);
    if texts == [] {
      return Err(NoTextSections);
    }
    var order := PlacementOrder(secs);
    var placed := PlaceAll(start, order, syms, md);
    if placed.Err? {
      return Err(placed.error);
    }
    var (end, pl) := placed.value;
    CodePlaced(start, secs, syms, md);
    var text := MinPair(Placements(texts, pl.sectionOffsets));
    r := Ok(AppLayout(start.offset, start.virt, end, pl, text.0, text.1));
  }

  /** A successful section loop records every section it was given. */
  lemma {:induction false} SectionsRecorded(c: Cursor, secs: seq<AppSection>, syms: seq<AppSymbol>, md: Metadata)
    requires md.loadAlignConstraint > 0 && PlaceSections(c, NoPlacement, secs, syms, md).Ok?
    ensures forall k :: 0 <= k < |secs| ==> secs[k].index in PlaceSections(c, NoPlacement, secs, syms, md).value.1.sectionOffsets
  {
    if secs != [] {
      var init := secs[..|secs| - 1];
      SectionsRecorded(c, init, syms, md);
      var pl0 := PlaceSections(c, NoPlacement, init, syms, md).value.1;
      var pl := PlaceSections(c, NoPlacement, secs, syms, md).value.1;
      assert pl.sectionOffsets.Keys == pl0.sectionOffsets.Keys + {secs[|secs| - 1].index};
      assert forall k :: 0 <= k < |init| ==> init[k] == secs[k];
    }
  }

  /** Every code section gets a placement: the code comes last in the
      placement order, and every section in it is recorded. */
  lemma CodePlaced(c: Cursor, secs: seq<AppSection>, syms: seq<AppSymbol>, md: Metadata)
    requires md.loadAlignConstraint > 0 && PlaceSections(c, NoPlacement, PlacementOrder(secs), syms, md).Ok?
    ensures forall k :: 0 <= k < |Select(secs, Code)| ==>
              Select(secs, Code)[k].index in PlaceSections(c, NoPlacement, PlacementOrder(secs), syms, md).value.1.sectionOffsets
  {
    var order := PlacementOrder(secs);
    var texts := Select(secs, Code);
    SectionsRecorded(c, order, syms, md);
    forall k | 0 <= k < |texts|
      ensures texts[k].index in PlaceSections(c, NoPlacement, order, syms, md).value.1.sectionOffsets
    {
      assert order[|order| - |texts| + k] == texts[k];
    }
  }

  /** Where the layout puts the code: after the start of the copied data
      and no further than the final cursors, at a 0x40-aligned offset with
      an address congruent to it modulo the load alignment, as the start
      of the copied data is. */
  lemma {:induction false} LaidGeometry(l: AppLayout, shOffset: nat, absoluteRelocationCount: nat, secs: seq<AppSection>,
                     syms: seq<AppSymbol>, md: Metadata)
    requires md.loadAlignConstraint > 0 && Laid(l, shOffset, absoluteRelocationCount, secs, syms, md)
    ensures l.rodataOffset <= l.textOffset <= l.end.offset && l.rodataVaddr <= l.textVaddr <= l.end.virt
    ensures l.textOffset % MIN_SECTION_ALIGNMENT == 0
    ensures l.textVaddr % md.loadAlignConstraint == l.textOffset % md.loadAlignConstraint
    ensures l.rodataVaddr % md.loadAlignConstraint == l.rodataOffset % md.loadAlignConstraint
  {
    var start := DataStart(shOffset, absoluteRelocationCount, md);
    PlacementGeometry(start, PlacementOrder(secs), syms, md);
    var texts := Select(secs, Code);
    var ps := Placements(texts, l.placement.sectionOffsets);
    var k :| 0 <= k < |ps| && ps[k] == (l.textOffset, l.textVaddr);
    assert texts[k].index in l.placement.sectionOffsets;
  }
}
