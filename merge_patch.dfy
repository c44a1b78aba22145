/** The last loop of `surgery_elf_help`: for every application function
    the host calls, each recorded call site is overwritten with the
    function's final address or displacement, the function's PLT stub is
    replaced by a direct jump, and its dynamic and static symbol table
    entries are made to define it. */
module MergePatch {
  import opened Wrappers
  import opened LittleEndian
  import opened ElfTypes
  import opened AddressTranslation
  import opened MergeLayout
  import opened MergeRelocations
  import Plt
  import MergeHeaders


  const JMP_INST_LEN: nat := 5
  const JMP_OPCODE: Byte := 0xE9
  const NOP: Byte := 0x90

  // ---------------------------------------------------------------------
  // Call sites.

  /** What a patch site's value is measured from: the moved address just
      past the instruction for a displacement, zero for an absolute
      address. */
  function SiteBase(s: SurgeryEntry, md: Metadata): nat
  {
    match s.virtualOffset
    case Relative(vs) => UpdateVirtualOffset(md, vs)
    case Absolute => 0
  }

  /** Where a patch site now is in the file. */
  function SitePosition(s: SurgeryEntry, md: Metadata): nat
  {
    UpdatePhysicalOffset(md, s.fileOffset)
  }

  /** The bytes a site receives: the distance from its base to the
      function, truncated to the site's width (`as i32` for four bytes). */
  function SiteBytes(s: SurgeryEntry, fv: nat, md: Metadata): (r: seq<Byte>)
    ensures |r| == s.size
  {
    Encode(fv - SiteBase(s, md), s.size)
  }

  /** One patch site for a function at address `fv`: a 4-byte field
      receives the truncated difference, an 8-byte field the full one;
      other widths are fatal. */
  function ApplySurgery(buf: seq<Byte>, s: SurgeryEntry, fv: nat, md: Metadata): (r: Result<seq<Byte>, LinkError>)
    ensures r.Err? <==> !(s.size == 4 || s.size == 8) || SitePosition(s, md) + s.size > |buf|
    ensures r.Ok? ==> |r.value| == |buf|
    ensures r.Ok? ==> r.value == Write(buf, SitePosition(s, md), SiteBytes(s, fv, md))
    ensures r.Ok? ==> forall i :: SitePosition(s, md) <= i < SitePosition(s, md) + s.size ==>
                        r.value[i] == SiteBytes(s, fv, md)[i - SitePosition(s, md)]
    ensures r.Ok? ==> forall i :: 0 <= i < |buf| && !(SitePosition(s, md) <= i < SitePosition(s, md) + s.size) ==> r.value[i] == buf[i]
  {
    var target := fv - SiteBase(s, md);
    if s.size == 4 then WriteAt(buf, SitePosition(s, md), Encode(target, 4))
    else if s.size == 8 then WriteAt(buf, SitePosition(s, md), Encode(target, 8))
    else Err(UnsupportedSurgerySize)
  }

  /** A patched site reads back, as a signed field of its width, as the
      distance from its base to the function: a call through a displacement
      lands on the function, and an absolute site holds its address. */
  lemma {:induction false} SurgeryRoundTrip(buf: seq<Byte>, s: SurgeryEntry, fv: nat, md: Metadata)
    requires ApplySurgery(buf, s, fv, md).Ok?
    requires -(Pow256(s.size) / 2) <= fv - SiteBase(s, md) < Pow256(s.size) / 2
    ensures var b, p := ApplySurgery(buf, s, fv, md).value, SitePosition(s, md);
            p + s.size <= |b| && s.size > 0 && SiteBase(s, md) + Signed(Decode(b[p..p + s.size]), s.size) == fv
  {
    var p, e := SitePosition(s, md), SiteBytes(s, fv, md);
    var b, t := ApplySurgery(buf, s, fv, md).value, fv - SiteBase(s, md);
    WriteSlice(buf, p, e);
    ReadBack(b, p, s.size, t);
  }

  /** A field that holds the encoding of `t` reads back as `t`. */
  lemma ReadBack(b: seq<Byte>, p: nat, n: nat, t: int)
    requires p + n <= |b| && n > 0 && -(Pow256(n) / 2) <= t < Pow256(n) / 2
    requires b[p..p + n] == Encode(t, n)
    ensures Signed(Decode(b[p..p + n]), n) == t
  {
    SignedRoundTrip(t, n);
  }

  /** The sites of one function, in order. */
  function ApplySurgeries(buf: seq<Byte>, ss: seq<SurgeryEntry>, fv: nat, md: Metadata): (r: Result<seq<Byte>, LinkError>)
    ensures r.Ok? ==> |r.value| == |buf|
    ensures r.Ok? ==> forall k :: 0 <= k < |ss| ==> (ss[k].size == 4 || ss[k].size == 8) && SitePosition(ss[k], md) + ss[k].size <= |buf|
  {
    if ss == [] then Ok(buf)
    else
      match ApplySurgeries(buf, ss[..|ss| - 1], fv, md)
      case Err(e) => Err(e)
      case Ok(b) =>
        var r := ApplySurgery(b, ss[|ss| - 1], fv, md);
        assert forall k :: 0 <= k < |ss| - 1 ==> ss[..|ss| - 1][k] == ss[k];
        r
  }

  lemma {:induction false} ApplySurgeriesErrSticks(buf: seq<Byte>, ss: seq<SurgeryEntry>, fv: nat, md: Metadata, k: nat)
    requires k <= |ss| && ApplySurgeries(buf, ss[..k], fv, md).Err?
    ensures ApplySurgeries(buf, ss, fv, md).Err?
    decreases |ss| - k
  {
    if k < |ss| {
      assert ss[..k + 1][..k] == ss[..k];
      ApplySurgeriesErrSticks(buf, ss, fv, md, k + 1);
    } else {
      assert ss[..k] == ss;
    }
  }

  /** No two sites overlap. */
  predicate SitesDisjoint(ss: seq<SurgeryEntry>, md: Metadata)
  {
    forall k, l :: 0 <= k < l < |ss| ==>
      SitePosition(ss[k], md) + ss[k].size <= SitePosition(ss[l], md)
      || SitePosition(ss[l], md) + ss[l].size <= SitePosition(ss[k], md)
  }

  /** Where each site now is in the file. */
  function Positions(ss: seq<SurgeryEntry>, md: Metadata): (ps: seq<nat>)
    ensures |ps| == |ss|
    ensures forall k :: 0 <= k < |ss| ==> ps[k] == SitePosition(ss[k], md)
  {
    if ss == [] then []
    else
      var n := |ss| - 1;
      assert forall k :: 0 <= k < n ==> ss[..n][k] == ss[k];
      Positions(ss[..n], md) + [SitePosition(ss[n], md)]
  }

  /** The bytes each site receives. */
  function Patches(ss: seq<SurgeryEntry>, fv: nat, md: Metadata): (bs: seq<seq<Byte>>)
    ensures |bs| == |ss|
    ensures forall k :: 0 <= k < |ss| ==> bs[k] == SiteBytes(ss[k], fv, md)
  {
    if ss == [] then []
    else
      var n := |ss| - 1;
      assert forall k :: 0 <= k < n ==> ss[..n][k] == ss[k];
      Patches(ss[..n], fv, md) + [SiteBytes(ss[n], fv, md)]
  }

  /** Every write of `bs[j]` at `ps[j]` fits in `n` bytes. */
  predicate WritesFit(n: nat, ps: seq<nat>, bs: seq<seq<Byte>>)
  {
    |ps| == |bs| && forall j :: 0 <= j < |ps| ==> ps[j] + |bs[j]| <= n
  }

  /** No two of the writes overlap. */
  predicate WritesDisjoint(ps: seq<nat>, bs: seq<seq<Byte>>)
    requires |ps| == |bs|
  {
    forall j, l :: 0 <= j < l < |ps| ==> ps[j] + |bs[j]| <= ps[l] || ps[l] + |bs[l]| <= ps[j]
  }

  /** `bs[j]` written at `ps[j]`, in order. */
  function WriteAll(buf: seq<Byte>, ps: seq<nat>, bs: seq<seq<Byte>>): (r: seq<Byte>)
    requires WritesFit(|buf|, ps, bs)
    ensures |r| == |buf|
  {
    if ps == [] then buf
    else
      var n := |ps| - 1;
      assert WritesFit(|buf|, ps[..n], bs[..n]);
      Write(WriteAll(buf, ps[..n], bs[..n]), ps[n], bs[n])
  }

  /** After writes that do not overlap, each written range holds its bytes. */
  lemma {:induction false} WriteAllAt(buf: seq<Byte>, ps: seq<nat>, bs: seq<seq<Byte>>, k: nat, i: nat)
    requires WritesFit(|buf|, ps, bs) && WritesDisjoint(ps, bs)
    requires k < |ps| && ps[k] <= i < ps[k] + |bs[k]|
    ensures WriteAll(buf, ps, bs)[i] == bs[k][i - ps[k]]
    decreases |ps|
  {
    var n := |ps| - 1;
    var ps', bs' := ps[..n], bs[..n];
    assert WritesFit(|buf|, ps', bs');
    if k < n {
      assert WritesDisjoint(ps', bs') by {
        forall j, l | 0 <= j < l < |ps'|
          ensures ps'[j] + |bs'[j]| <= ps'[l] || ps'[l] + |bs'[l]| <= ps'[j]
        {
          assert ps'[j] == ps[j] && ps'[l] == ps[l] && bs'[j] == bs[j] && bs'[l] == bs[l];
        }
      }
      assert ps'[k] == ps[k] && bs'[k] == bs[k];
      WriteAllAt(buf, ps', bs', k, i);
      assert ps[k] + |bs[k]| <= ps[n] || ps[n] + |bs[n]| <= ps[k];
    }
  }

  /** The loop over the sites is the writes of their bytes at their places. */
  lemma {:induction false} ApplySurgeriesWrites(buf: seq<Byte>, ss: seq<SurgeryEntry>, fv: nat, md: Metadata)
    requires ApplySurgeries(buf, ss, fv, md).Ok?
    ensures WritesFit(|buf|, Positions(ss, md), Patches(ss, fv, md))
    ensures ApplySurgeries(buf, ss, fv, md).value == WriteAll(buf, Positions(ss, md), Patches(ss, fv, md))
  {
    var ps, bs := Positions(ss, md), Patches(ss, fv, md);
    if ss != [] {
      var n := |ss| - 1;
      var init := ss[..n];
      ApplySurgeriesWrites(buf, init, fv, md);
      assert ps[..n] == Positions(init, md) && bs[..n] == Patches(init, fv, md);
    }
  }

  /** Sites that do not overlap receive writes that do not overlap. */
  lemma {:induction false} PatchesDisjoint(ss: seq<SurgeryEntry>, fv: nat, md: Metadata)
    requires SitesDisjoint(ss, md)
    ensures WritesDisjoint(Positions(ss, md), Patches(ss, fv, md))
  {
    var ps, bs := Positions(ss, md), Patches(ss, fv, md);
    forall j, l | 0 <= j < l < |ps|
      ensures ps[j] + |bs[j]| <= ps[l] || ps[l] + |bs[l]| <= ps[j]
    {
      assert ps[j] == SitePosition(ss[j], md) && |bs[j]| == ss[j].size;
      assert ps[l] == SitePosition(ss[l], md) && |bs[l]| == ss[l].size;
    }
  }

  /** After the loop over sites that do not overlap, every site holds the
      truncated distance from its base to the function. */
  lemma {:induction false} SurgeriesPlaceTargets(buf: seq<Byte>, ss: seq<SurgeryEntry>, fv: nat, md: Metadata, k: nat, i: nat)
    requires SitesDisjoint(ss, md) && ApplySurgeries(buf, ss, fv, md).Ok?
    requires k < |ss| && SitePosition(ss[k], md) <= i < SitePosition(ss[k], md) + ss[k].size
    ensures ApplySurgeries(buf, ss, fv, md).value[i] == SiteBytes(ss[k], fv, md)[i - SitePosition(ss[k], md)]
  {
    PatchesDisjoint(ss, fv, md);
    ApplySurgeriesWrites(buf, ss, fv, md);
    SiteWritten(buf, ss, fv, md, k, i);
  }

  /** The writes of the sites' bytes leave site `k` holding its bytes. */
  lemma SiteWritten(buf: seq<Byte>, ss: seq<SurgeryEntry>, fv: nat, md: Metadata, k: nat, i: nat)
    requires WritesFit(|buf|, Positions(ss, md), Patches(ss, fv, md))
    requires WritesDisjoint(Positions(ss, md), Patches(ss, fv, md))
    requires k < |ss| && SitePosition(ss[k], md) <= i < SitePosition(ss[k], md) + ss[k].size
    ensures WriteAll(buf, Positions(ss, md), Patches(ss, fv, md))[i] == SiteBytes(ss[k], fv, md)[i - SitePosition(ss[k], md)]
  {
    WriteAllAt(buf, Positions(ss, md), Patches(ss, fv, md), k, i);
  }

  // ---------------------------------------------------------------------
  // The PLT stub.

  /** The 16 bytes that replace a PLT stub at address `pltVaddr`: a relative
      jump to `fv`, then no-ops. */
  function PltStub(fv: nat, pltVaddr: nat): (stub: seq<Byte>)
    ensures |stub| == Plt.PLT_ADDRESS_OFFSET && stub[0] == JMP_OPCODE
    ensures forall i :: JMP_INST_LEN <= i < |stub| ==> stub[i] == NOP
  {
    [JMP_OPCODE] + Encode(fv - (pltVaddr + JMP_INST_LEN), 4) + Nops(Plt.PLT_ADDRESS_OFFSET - JMP_INST_LEN)
  }

  /** `n` no-op bytes. */
  function Nops(n: nat): (r: seq<Byte>)
    ensures |r| == n && forall i :: 0 <= i < n ==> r[i] == NOP
  {
    if n == 0 then [] else Nops(n - 1) + [NOP]
  }

  /** The jump of the stub lands on the function whenever the distance
      fits a 32-bit displacement. */
  lemma {:induction false} PltStubJumps(fv: nat, pltVaddr: nat)
    requires -(TWO_32 / 2) <= fv - (pltVaddr + JMP_INST_LEN) < TWO_32 / 2
    ensures pltVaddr + JMP_INST_LEN + Signed(Decode(PltStub(fv, pltVaddr)[1..JMP_INST_LEN]), 4) == fv
  {
    Pow256Values();
    assert PltStub(fv, pltVaddr)[1..JMP_INST_LEN] == Encode(fv - (pltVaddr + JMP_INST_LEN), 4);
    SignedRoundTrip(fv - (pltVaddr + JMP_INST_LEN), 4);
  }

  /** A function called through the PLT gets its stub replaced; any other
      function leaves the file alone. */
  function PatchPlt(buf: seq<Byte>, func: string, fv: nat, md: Metadata): (r: Result<seq<Byte>, LinkError>)
    ensures func !in md.pltAddresses ==> r == Ok(buf)
    ensures r.Ok? ==> |r.value| == |buf|
    ensures func in md.pltAddresses && r.Ok? ==>
              var off := UpdatePhysicalOffset(md, md.pltAddresses[func].0);
              off + Plt.PLT_ADDRESS_OFFSET <= |buf|
              && r.value[off..off + Plt.PLT_ADDRESS_OFFSET] == PltStub(fv, UpdateVirtualOffset(md, md.pltAddresses[func].1))
  {
    if func !in md.pltAddresses then Ok(buf)
    else
      var (off, vaddr) := md.pltAddresses[func];
      WriteAt(buf, UpdatePhysicalOffset(md, off), PltStub(fv, UpdateVirtualOffset(md, vaddr)))
  }

  // ---------------------------------------------------------------------
  // The symbol tables.

  /** `program_headers.len() - 1` as elf.rs:1766 takes it for the section
      index of the new code: the index of the last program header. */
  function TextSectionIndexAsWritten(phNum: nat): nat
    requires phNum >= 1
  {
    (phNum - 1) % 0x1_0000
  }

  /** The index of the new code section: the last entry of the copied
      section header table, which has two entries more than the host's. */
  function TextSectionIndex(shNum: nat): nat
  {
    (shNum + 1) % 0x1_0000
  }

  /** The corrected index names the code section header that the header
      update writes. */
  lemma {:induction false} TextSectionIndexNamesText(shs: seq<SectionHeader>, shNum: nat, l: AppLayout)
    requires |shs| == shNum + 2 && shNum + 1 < 0x1_0000
    requires shs[|shs| - 1] == MergeHeaders.TextSectionAt(l, l.textVaddr)
    ensures TextSectionIndex(shNum) < |shs| && shs[TextSectionIndex(shNum)] == MergeHeaders.TextSectionAt(l, l.textVaddr)
  {
  }

  /** A host with 13 program headers (after the three preprocessing adds)
      and 30 sections: the index as written is 12, one of the host's own
      sections, while the code section is entry 31. */
  lemma {:induction false} TextSectionIndexAsWrittenMisses()
    ensures TextSectionIndexAsWritten(13) == 12 && 12 < 30 && TextSectionIndex(30) == 31
  {
  }

  /** A symbol that now defines the function: in section `shndx` (a `u16`
      field), at address `fv`, with the function's size. */
  function DefineSymbol(sym: Sym, shndx: nat, fv: nat, size: nat): (r: Sym)
    ensures r.stName == sym.stName && r.stShndx < 0x1_0000
  {
    sym.(stShndx := shndx % 0x1_0000, stValue := fv, stSize := size)
  }

  /** The entry `indices` names for `func`, if any, made to define it. A
      missing size is fatal, and so is an index past the table. */
  function DefineIn(tab: seq<Sym>, indices: map<string, nat>, func: string, shndx: nat, fv: nat, sizes: map<string, nat>)
    : (r: Result<seq<Sym>, LinkError>)
    ensures func !in indices ==> r == Ok(tab)
    ensures r.Ok? ==> |r.value| == |tab|
    ensures r.Ok? && func in indices ==>
              func in sizes && indices[func] < |tab| && r.value[indices[func]] == DefineSymbol(tab[indices[func]], shndx, fv, sizes[func])
              && forall i :: 0 <= i < |tab| && i != indices[func] ==> r.value[i] == tab[i]
  {
    if func !in indices then Ok(tab)
    else if indices[func] >= |tab| then Err(SliceOutOfRange)
    else if func !in sizes then Err(MissingFunctionSize)
    else Ok(tab[indices[func] := DefineSymbol(tab[indices[func]], shndx, fv, sizes[func])])
  }

  // ---------------------------------------------------------------------
  // Every function.

  /** The output file and its two symbol tables. */
  datatype Output = Output(buf: seq<Byte>, dynsym: seq<Sym>, symtab: seq<Sym>)

  /** The surgeries recorded for `func`, none when there are none. */
  function SurgeriesOf(func: string, md: Metadata): seq<SurgeryEntry>
  {
    if func in md.surgeries then md.surgeries[func] else []
  }

  /** Everything done for one function. A function the application does
      not define is fatal. */
  function PatchFunction(o: Output, func: string, pl: Placement, md: Metadata, shndx: nat): (r: Result<Output, LinkError>)
    ensures r.Ok? ==> func in pl.appFuncVaddrs
    ensures r.Ok? ==> |r.value.buf| == |o.buf| && |r.value.dynsym| == |o.dynsym| && |r.value.symtab| == |o.symtab|
    ensures r.Ok? && func in md.pltAddresses ==>
              var off := UpdatePhysicalOffset(md, md.pltAddresses[func].0);
              off + Plt.PLT_ADDRESS_OFFSET <= |o.buf|
              && r.value.buf[off..off + Plt.PLT_ADDRESS_OFFSET]
                 == PltStub(pl.appFuncVaddrs[func], UpdateVirtualOffset(md, md.pltAddresses[func].1))
    ensures r.Ok? && func in md.dynamicSymbolIndices ==>
              var i := md.dynamicSymbolIndices[func];
              func in pl.appFuncSizes && i < |o.dynsym|
              && r.value.dynsym[i] == DefineSymbol(o.dynsym[i], shndx, pl.appFuncVaddrs[func], pl.appFuncSizes[func])
    ensures r.Ok? && func in md.staticSymbolIndices ==>
              var i := md.staticSymbolIndices[func];
              func in pl.appFuncSizes && i < |o.symtab|
              && r.value.symtab[i] == DefineSymbol(o.symtab[i], shndx, pl.appFuncVaddrs[func], pl.appFuncSizes[func])
  {
    if func !in pl.appFuncVaddrs then Err(UndefinedAppFunction)
    else
      var fv := pl.appFuncVaddrs[func];
      match ApplySurgeries(o.buf, SurgeriesOf(func, md), fv, md)
      case Err(e) => Err(e)
      case Ok(b) =>
        match PatchPlt(b, func, fv, md)
        case Err(e) => Err(e)
        case Ok(b') =>
          match DefineIn(o.dynsym, md.dynamicSymbolIndices, func, shndx, fv, pl.appFuncSizes)
          case Err(e) => Err(e)
          case Ok(dyn) =>
            match DefineIn(o.symtab, md.staticSymbolIndices, func, shndx, fv, pl.appFuncSizes)
            case Err(e) => Err(e)
            case Ok(st) => Ok(Output(b', dyn, st))
  }

  /** The loop over the application functions, in order. It succeeds only
      if every one of them was placed. */
  function PatchFunctions(o: Output, funcs: seq<string>, pl: Placement, md: Metadata, shndx: nat): (r: Result<Output, LinkError>)
    ensures r.Ok? ==> forall k :: 0 <= k < |funcs| ==> funcs[k] in pl.appFuncVaddrs
    ensures r.Ok? ==> |r.value.buf| == |o.buf| && |r.value.dynsym| == |o.dynsym| && |r.value.symtab| == |o.symtab|
  {
    if funcs == [] then Ok(o)
    else
      match PatchFunctions(o, funcs[..|funcs| - 1], pl, md, shndx)
      case Err(e) => Err(e)
      case Ok(o') =>
        var r := PatchFunction(o', funcs[|funcs| - 1], pl, md, shndx);
        assert forall k :: 0 <= k < |funcs| - 1 ==> funcs[..|funcs| - 1][k] == funcs[k];
        r
  }

  lemma {:induction false} PatchFunctionsErrSticks(o: Output, funcs: seq<string>, pl: Placement, md: Metadata, shndx: nat, k: nat)
    requires k <= |funcs| && PatchFunctions(o, funcs[..k], pl, md, shndx).Err?
    ensures PatchFunctions(o, funcs, pl, md, shndx).Err?
    decreases |funcs| - k
  {
    if k < |funcs| {
      assert funcs[..k + 1][..k] == funcs[..k];
      PatchFunctionsErrSticks(o, funcs, pl, md, shndx, k + 1);
    } else {
      assert funcs[..k] == funcs;
    }
  }

  // ---------------------------------------------------------------------
  // The loops over the output file.

  /** One patch site, on the output file. */
  method PatchSite(buf: array<Byte>, s: SurgeryEntry, fv: nat, md: Metadata) returns (failure: Option<LinkError>)
    modifies buf
    ensures var spec := ApplySurgery(old(buf[..]), s, fv, md);
            (failure.None? <==> spec.Ok?) && (failure.None? ==> spec.value == buf[..])
  {
    var target := fv - SiteBase(s, md);
    var pos := SitePosition(s, md);
    var bytes: seq<Byte>;
    if s.size == 4 {
      bytes := Encode(target, 4);
    } else if s.size == 8 {
      bytes := Encode(target, 8);
    } else {
      return Some(UnsupportedSurgerySize);
    }
    assert ApplySurgery(buf[..], s, fv, md) == WriteAt(buf[..], pos, bytes);
    if pos + |bytes| > buf.Length {
      return Some(SliceOutOfRange);
    }
    WriteBytes(buf, pos, bytes);
    failure := None;
  }

  /** The site loop of one function. */
  method PatchSites(buf: array<Byte>, ss: seq<SurgeryEntry>, fv: nat, md: Metadata) returns (failure: Option<LinkError>)
    modifies buf
    ensures var spec := ApplySurgeries(old(buf[..]), ss, fv, md);
            (failure.None? <==> spec.Ok?) && (failure.None? ==> spec.value == buf[..])
  {
    var k := 0;
    while k < |ss|
      invariant k <= |ss|
      invariant ApplySurgeries(old(buf[..]), ss[..k], fv, md) == Ok(buf[..])
    {
      assert ss[..k + 1][..k] == ss[..k];
      ghost var before := buf[..];
      failure := PatchSite(buf, ss[k], fv, md);
      assert ApplySurgeries(old(buf[..]), ss[..k + 1], fv, md) == ApplySurgery(before, ss[k], fv, md);
      if failure.Some? {
        ApplySurgeriesErrSticks(old(buf[..]), ss, fv, md, k + 1);
        return;
      }
      k := k + 1;
    }
    assert ss[..k] == ss;
    failure := None;
  }

  /** Two adjacent writes are one write of their concatenation. */
  lemma WriteAdjacent(buf: seq<Byte>, pos: nat, a: seq<Byte>, b: seq<Byte>)
    requires pos + |a| + |b| <= |buf|
    ensures Write(Write(buf, pos, a), pos + |a|, b) == Write(buf, pos, a + b)
  {
    var l, r := Write(Write(buf, pos, a), pos + |a|, b), Write(buf, pos, a + b);
    forall i | 0 <= i < |buf|
      ensures l[i] == r[i]
    {
      if pos <= i < pos + |a| {
        assert r[i] == r[pos..pos + |a| + |b|][i - pos];
        assert Write(buf, pos, a)[i] == Write(buf, pos, a)[pos..pos + |a|][i - pos];
      } else if pos + |a| <= i < pos + |a| + |b| {
        assert r[i] == r[pos..pos + |a| + |b|][i - pos];
        assert l[i] == l[pos + |a|..pos + |a| + |b|][i - pos - |a|];
      }
    }
  }

  /** Writing a stub at `off`: the jump opcode, its displacement, then a
      loop of no-ops up to the next stub. */
  method WriteStub(buf: array<Byte>, off: nat, fv: nat, vaddr: nat)
    requires off + Plt.PLT_ADDRESS_OFFSET <= buf.Length
    modifies buf
    ensures buf[..] == Write(old(buf[..]), off, PltStub(fv, vaddr))
  {
    ghost var s0 := buf[..];
    var disp := Encode(fv - (vaddr + JMP_INST_LEN), 4);
    buf[off] := JMP_OPCODE;
    assert buf[..] == Write(s0, off, [JMP_OPCODE]);
    WriteBytes(buf, off + 1, disp);
    WriteAdjacent(s0, off, [JMP_OPCODE], disp);
    FillNops(buf, off + JMP_INST_LEN, Plt.PLT_ADDRESS_OFFSET - JMP_INST_LEN);
    WriteAdjacent(s0, off, [JMP_OPCODE] + disp, Nops(Plt.PLT_ADDRESS_OFFSET - JMP_INST_LEN));
  }

  /** The no-op loop: `n` no-ops from `pos`, one byte at a time. */
  method FillNops(buf: array<Byte>, pos: nat, n: nat)
    requires pos + n <= buf.Length
    modifies buf
    ensures buf[..] == Write(old(buf[..]), pos, Nops(n))
  {
    ghost var s0 := buf[..];
    var i := 0;
    while i < n
      invariant i <= n
      invariant buf[..] == Write(s0, pos, Nops(i))
    {
      ghost var before := buf[..];
      buf[pos + i] := NOP;
      assert buf[..] == Write(before, pos + i, [NOP]);
      WriteAdjacent(s0, pos, Nops(i), [NOP]);
      i := i + 1;
    }
  }

  /** The stub of one function, if it is called through the PLT. */
  method PatchStub(buf: array<Byte>, func: string, fv: nat, md: Metadata) returns (failure: Option<LinkError>)
    modifies buf
    ensures var spec := PatchPlt(old(buf[..]), func, fv, md);
            (failure.None? <==> spec.Ok?) && (failure.None? ==> spec.value == buf[..])
  {
    if func !in md.pltAddresses {
      return None;
    }
    var (pltOff, pltVaddr) := md.pltAddresses[func];
    var off := UpdatePhysicalOffset(md, pltOff);
    var vaddr := UpdateVirtualOffset(md, pltVaddr);
    assert PatchPlt(buf[..], func, fv, md) == WriteAt(buf[..], off, PltStub(fv, vaddr));
    if off + Plt.PLT_ADDRESS_OFFSET > buf.Length {
      return Some(SliceOutOfRange);
    }
    WriteStub(buf, off, fv, vaddr);
    failure := None;
  }

  /** The symbol update of one table. */
  method DefineInPlace(tab: array<Sym>, indices: map<string, nat>, func: string, shndx: nat, fv: nat, sizes: map<string, nat>)
    returns (failure: Option<LinkError>)
    modifies tab
    ensures var spec := DefineIn(old(tab[..]), indices, func, shndx, fv, sizes);
            (failure.None? <==> spec.Ok?) && (failure.None? ==> spec.value == tab[..])
  {
    if func !in indices {
      return None;
    }
    var i := indices[func];
    if i >= tab.Length {
      return Some(SliceOutOfRange);
    }
    if func !in sizes {
      return Some(MissingFunctionSize);
    }
    tab[i] := DefineSymbol(tab[i], shndx, fv, sizes[func]);
    failure := None;
  }

  /** The function loop over the output file and its two symbol tables,
      which are distinct tables; the functions are defined in the new code
      section, the last of the `shNum + 2` section headers. */
  method PatchAll(buf: array<Byte>, dynsym: array<Sym>, symtab: array<Sym>, pl: Placement, md: Metadata, shNum: nat)
    returns (failure: Option<LinkError>)
    requires dynsym != symtab
    modifies buf, dynsym, symtab
    ensures var spec := PatchFunctions(Output(old(buf[..]), old(dynsym[..]), old(symtab[..])), md.appFunctions, pl, md,
                                       TextSectionIndex(shNum));
            (failure.None? <==> spec.Ok?) && (failure.None? ==> spec.value == Output(buf[..], dynsym[..], symtab[..]))
  {
    var shndx := TextSectionIndex(shNum);
    ghost var o := Output(old(buf[..]), old(dynsym[..]), old(symtab[..]));
    var funcs := md.appFunctions;
    var k := 0;
    while k < |funcs|
      invariant k <= |funcs|
      invariant PatchFunctions(o, funcs[..k], pl, md, shndx) == Ok(Output(buf[..], dynsym[..], symtab[..]))
    {
      assert funcs[..k + 1][..k] == funcs[..k];
      var func := funcs[k];
      ghost var before := Output(buf[..], dynsym[..], symtab[..]);
      if func !in pl.appFuncVaddrs {
        PatchFunctionsErrSticks(o, funcs, pl, md, shndx, k + 1);
        return Some(UndefinedAppFunction);
      }
      var fv := pl.appFuncVaddrs[func];
      failure := PatchSites(buf, SurgeriesOf(func, md), fv, md);
      if failure.Some? {
        PatchFunctionsErrSticks(o, funcs, pl, md, shndx, k + 1);
        return;
      }
      failure := PatchStub(buf, func, fv, md);
      if failure.Some? {
        PatchFunctionsErrSticks(o, funcs, pl, md, shndx, k + 1);
        return;
      }
      failure := DefineInPlace(dynsym, md.dynamicSymbolIndices, func, shndx, fv, pl.appFuncSizes);
      if failure.Some? {
        PatchFunctionsErrSticks(o, funcs, pl, md, shndx, k + 1);
        return;
      }
      failure := DefineInPlace(symtab, md.staticSymbolIndices, func, shndx, fv, pl.appFuncSizes);
      if failure.Some? {
        PatchFunctionsErrSticks(o, funcs, pl, md, shndx, k + 1);
        return;
      }
      assert PatchFunction(before, func, pl, md, shndx) == Ok(Output(buf[..], dynsym[..], symtab[..]));
      k := k + 1;
    }
    assert funcs[..k] == funcs;
    failure := None;
  }
}
