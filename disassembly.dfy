/** `Surgeries`: the walk over the host's decoded text that records, for each
    application function, every call or jump site whose displacement targets
    that function's PLT stub. The decoder is replaced by the sequence of
    instructions it would produce. */
module Disassembly {
  import opened Wrappers
  import opened LittleEndian
  import opened ElfTypes


  /** The kind of an instruction's first operand (`try_op_kind(0)`);
      `DecodeFailure` is that query failing. */
  datatype OpKind =
    | NearBranch16 | NearBranch32 | NearBranch64
    | FarBranch16 | FarBranch32
    | OtherOperand
    | DecodeFailure

  /** The opcode's description of that operand (`OpCodeOperandKind`): a
      relative branch with a 1, 2 or 4 byte displacement, or anything else. */
  datatype OperandEncoding = Br16_1 | Br32_1 | Br16_2 | Br32_4 | Br64_4 | OtherEncoding

  /** A decoded instruction: where it starts, where the next one starts, its
      first operand and, for a near branch, the target. */
  datatype Instruction = Instruction(ip: nat, nextIp: nat, opKind: OpKind, encoding: OperandEncoding, nearBranchTarget: nat)

  /** Where a section's bytes are in the file and whether they are stored
      compressed. */
  datatype FileRange = FileRange(offset: nat, compressed: bool)

  /** A section of the host: its kind, its address, its file range (`None`
      when the reader cannot determine it) and its decoded contents (`None`
      when its data cannot be loaded). */
  datatype Section = Section(isText: bool, address: nat, range: Option<FileRange>, instructions: Option<seq<Instruction>>)

  predicate IsNearBranch(k: OpKind)
  {
    k == NearBranch16 || k == NearBranch32 || k == NearBranch64
  }

  /** The size of the displacement field the site patch overwrites. */
  function OperandSize(e: OperandEncoding): (r: Option<nat>)
    ensures r.Some? ==> r.value == 1 || r.value == 2 || r.value == 4
    ensures r.None? <==> e == OtherEncoding
  {
    match e
    case Br16_1 => Some(1)
    case Br32_1 => Some(1)
    case Br16_2 => Some(2)
    case Br32_4 => Some(4)
    case Br64_4 => Some(4)
    case OtherEncoding => None
  }

  /** The patch site of a branch: the last `size` bytes of the instruction,
      in file coordinates, with the displacement measured from `next_ip`. */
  function Site(inst: Instruction, size: nat, sectionAddress: nat, fileOffset: nat): SurgeryEntry
  {
    SurgeryEntry(Wrap64(inst.nextIp - size - sectionAddress + fileOffset), Relative(inst.nextIp), size)
  }

  /** The instruction is a near branch to an application function's stub. */
  predicate Hits(funcs: map<nat, string>, inst: Instruction)
  {
    IsNearBranch(inst.opKind) && inst.nearBranchTarget in funcs
  }

  /** One iteration of the decode loop. */
  function Step(m: map<string, seq<SurgeryEntry>>, funcs: map<nat, string>, address: nat, range: FileRange, inst: Instruction)
    : Result<map<string, seq<SurgeryEntry>>, LinkError>
  {
    if IsNearBranch(inst.opKind) then
      if inst.nearBranchTarget !in funcs then Ok(m)
      else if range.compressed then Err(CompressedText)
      else match OperandSize(inst.encoding)
        case None => Err(UnknownOperandKind)
        case Some(size) =>
          var name := funcs[inst.nearBranchTarget];
          if name !in m then Err(UnwrapNone)
          else Ok(m[name := m[name] + [Site(inst, size, address, range.offset)]])
    else if inst.opKind == FarBranch16 || inst.opKind == FarBranch32 then
      Err(FarBranch)
    else if inst.opKind == DecodeFailure then
      Err(UndecodableInstruction)
    else
      Ok(m)
  }

  /** The decode loop over `insts`, stopping at the first fatal instruction. */
  function Scan(m: map<string, seq<SurgeryEntry>>, funcs: map<nat, string>, address: nat, range: FileRange, insts: seq<Instruction>)
    : Result<map<string, seq<SurgeryEntry>>, LinkError>
  {
    if insts == [] then Ok(m)
    else match Scan(m, funcs, address, range, insts[..|insts| - 1])
      case Err(e) => Err(e)
      case Ok(m') => Step(m', funcs, address, range, insts[|insts| - 1])
  }

  /** `append_text_section` as a whole: failing when the file range or the
      data cannot be read. */
  function ScanSection(m: map<string, seq<SurgeryEntry>>, funcs: map<nat, string>, sec: Section)
    : Result<map<string, seq<SurgeryEntry>>, LinkError>
  {
    if sec.range.None? then Err(NoFileRange)
    else if sec.instructions.None? then Err(NoSectionData)
    else Scan(m, funcs, sec.address, sec.range.value, sec.instructions.value)
  }

  /** The text sections among `secs`, in order. */
  function TextSections(secs: seq<Section>): (r: seq<Section>)
    ensures forall i :: 0 <= i < |r| ==> r[i].isText
    ensures forall s :: s in secs && s.isText ==> s in r
    ensures forall s :: s in r ==> s in secs
  {
    if secs == [] then []
    else TextSections(secs[..|secs| - 1]) + (if secs[|secs| - 1].isText then [secs[|secs| - 1]] else [])
  }

  /** `append_text_sections` as a whole: every text section in turn. */
  function ScanSections(m: map<string, seq<SurgeryEntry>>, funcs: map<nat, string>, secs: seq<Section>)
    : Result<map<string, seq<SurgeryEntry>>, LinkError>
  {
    if secs == [] then Ok(m)
    else match ScanSections(m, funcs, secs[..|secs| - 1])
      case Err(e) => Err(e)
      case Ok(m') => ScanSection(m', funcs, secs[|secs| - 1])
  }

  class Surgeries {
    /** Application function name to the sites to patch. */
    var surgeries: map<string, seq<SurgeryEntry>>
    /** PLT stub address to application function name. */
    const appFuncAddresses: map<nat, string>

    /** `Surgeries::new`: an empty list of sites per application symbol. */
    constructor (appSymbols: seq<string>, funcs: map<nat, string>)
      ensures surgeries.Keys == set n | n in appSymbols
      ensures forall n :: n in surgeries ==> surgeries[n] == []
      ensures appFuncAddresses == funcs
    {
      surgeries := map n | n in appSymbols :: [];
      appFuncAddresses := funcs;
    }

    /** `append_text_section`: decode one section and record its sites. */
    method AppendTextSection(sec: Section) returns (r: Result<(), LinkError>)
      modifies this
      ensures ScanSection(old(surgeries), appFuncAddresses, sec).Ok? <==> r.Ok?
      ensures r.Ok? ==> surgeries == ScanSection(old(surgeries), appFuncAddresses, sec).value
    {
      if sec.range.None? {
        return Err(NoFileRange);
      }
      if sec.instructions.None? {
        return Err(NoSectionData);
      }
      var range := sec.range.value;
      var insts := sec.instructions.value;
      ghost var m0 := surgeries;
      var k := 0;
      while k < |insts|
        invariant k <= |insts|
        invariant Scan(m0, appFuncAddresses, sec.address, range, insts[..k]) == Ok(surgeries)
      {
        assert insts[..k + 1][..k] == insts[..k];
        r := VisitInstruction(sec.address, range, insts[k]);
        if r.Err? {
          ScanErrSticks(m0, appFuncAddresses, sec.address, range, insts, k + 1);
          return;
        }
        k := k + 1;
      }
      assert insts[..k] == insts;
      return Ok(());
    }

    /** One pass of the decode loop of `append_text_section`: a near branch
        to an application function's stub adds its site to that function's
        list; the fatal instructions stop the walk. */
    method VisitInstruction(address: nat, range: FileRange, inst: Instruction) returns (r: Result<(), LinkError>)
      modifies this
      ensures Step(old(surgeries), appFuncAddresses, address, range, inst).Ok? <==> r.Ok?
      ensures r.Ok? ==> surgeries == Step(old(surgeries), appFuncAddresses, address, range, inst).value
    {
      r := Ok(());
      if IsNearBranch(inst.opKind) {
        var target := inst.nearBranchTarget;
        if target in appFuncAddresses {
          var funcName := appFuncAddresses[target];
          if range.compressed {
            return Err(CompressedText);
          }
          var size;
          match OperandSize(inst.encoding) {
            case None =>
              return Err(UnknownOperandKind);
            case Some(s) =>
              size := s;
          }
          var offset := Wrap64(inst.nextIp - size - address + range.offset);
          if funcName !in surgeries {
            return Err(UnwrapNone);
          }
          surgeries := surgeries[funcName := surgeries[funcName] + [SurgeryEntry(offset, Relative(inst.nextIp), size)]];
        }
      } else if inst.opKind == FarBranch16 || inst.opKind == FarBranch32 {
        return Err(FarBranch);
      } else if inst.opKind == DecodeFailure {
        return Err(UndecodableInstruction);
      }
    }

    /** `append_text_sections`: every text section in turn; a host without
      text is fatal. */
    method AppendTextSections(secs: seq<Section>) returns (r: Result<(), LinkError>)
      modifies this
      ensures TextSections(secs) == [] ==> r.Err?
      ensures TextSections(secs) != [] ==>
                (r.Ok? <==> ScanSections(old(surgeries), appFuncAddresses, TextSections(secs)).Ok?)
      ensures r.Ok? ==> surgeries == ScanSections(old(surgeries), appFuncAddresses, TextSections(secs)).value
    {
      var texts := TextSections(secs);
      if texts == [] {
        return Err(NoTextSections);
      }
      ghost var m0, funcs := surgeries, appFuncAddresses;
      var k := 0;
      while k < |texts|
        invariant k <= |texts| && funcs == appFuncAddresses
        invariant ScanSections(m0, funcs, texts[..k]) == Ok(surgeries)
      {
        ScanSectionsStep(m0, funcs, texts, k);
        var res := AppendTextSection(texts[k]);
        if res.Err? {
          ScanSectionsErrSticks(m0, funcs, texts, k + 1);
          return res;
        }
        k := k + 1;
      }
      assert texts[..k] == texts;
      return Ok(());
    }
  }

  /** One more section continues the walk from the prefix's surgeries. */
  lemma {:induction false} ScanSectionsStep(m: map<string, seq<SurgeryEntry>>, funcs: map<nat, string>, secs: seq<Section>, k: nat)
    requires k < |secs| && ScanSections(m, funcs, secs[..k]).Ok?
    ensures ScanSections(m, funcs, secs[..k + 1]) == ScanSection(ScanSections(m, funcs, secs[..k]).value, funcs, secs[k])
  {
    assert secs[..k + 1][..k] == secs[..k];
  }

  /** Once a prefix of the sections fails, the whole walk fails. */
  lemma {:induction false} ScanSectionsErrSticks(m: map<string, seq<SurgeryEntry>>, funcs: map<nat, string>, secs: seq<Section>, k: nat)
    requires k <= |secs| && ScanSections(m, funcs, secs[..k]).Err?
    ensures ScanSections(m, funcs, secs).Err?
    decreases |secs| - k
  {
    if k < |secs| {
      assert secs[..k + 1][..k] == secs[..k];
      ScanSectionsErrSticks(m, funcs, secs, k + 1);
    } else {
      assert secs[..k] == secs;
    }
  }

  /** Once a prefix of the instructions fails, the whole walk fails. */
  lemma {:induction false} ScanErrSticks(m: map<string, seq<SurgeryEntry>>, funcs: map<nat, string>, address: nat, range: FileRange, insts: seq<Instruction>, k: nat)
    requires k <= |insts| && Scan(m, funcs, address, range, insts[..k]).Err?
    ensures Scan(m, funcs, address, range, insts).Err?
    decreases |insts| - k
  {
    if k < |insts| {
      assert insts[..k + 1][..k] == insts[..k];
      ScanErrSticks(m, funcs, address, range, insts, k + 1);
    } else {
      assert insts[..k] == insts;
    }
  }

  /** The instruction stops the walk. */
  predicate Fatal(m: map<string, seq<SurgeryEntry>>, funcs: map<nat, string>, range: FileRange, inst: Instruction)
  {
    (Hits(funcs, inst)
     && (range.compressed || OperandSize(inst.encoding).None? || funcs[inst.nearBranchTarget] !in m))
    || inst.opKind == FarBranch16 || inst.opKind == FarBranch32 || inst.opKind == DecodeFailure
  }

  /** The sites the walk records for `name`, listed directly: one per near
      branch to a stub of `name`, in instruction order. */
  function SitesFor(name: string, funcs: map<nat, string>, address: nat, range: FileRange, insts: seq<Instruction>): seq<SurgeryEntry>
  {
    if insts == [] then []
    else
      var inst := insts[|insts| - 1];
      SitesFor(name, funcs, address, range, insts[..|insts| - 1]) + SiteOf(name, funcs, address, range, inst)
  }

  /** The site one instruction contributes to `name`'s list, if any. */
  function SiteOf(name: string, funcs: map<nat, string>, address: nat, range: FileRange, inst: Instruction): seq<SurgeryEntry>
  {
    if Hits(funcs, inst) && funcs[inst.nearBranchTarget] == name && OperandSize(inst.encoding).Some?
    then [Site(inst, OperandSize(inst.encoding).value, address, range.offset)]
    else []
  }

  /** One step of the walk fails exactly on a fatal instruction, and
      otherwise extends each list by that instruction's site. */
  lemma StepSpec(m: map<string, seq<SurgeryEntry>>, funcs: map<nat, string>, address: nat, range: FileRange, inst: Instruction)
    ensures Step(m, funcs, address, range, inst).Ok? <==> !Fatal(m, funcs, range, inst)
    ensures Step(m, funcs, address, range, inst).Ok? ==>
              var m' := Step(m, funcs, address, range, inst).value;
              m'.Keys == m.Keys
              && forall name :: name in m ==> m'[name] == m[name] + SiteOf(name, funcs, address, range, inst)
  {
  }

  /** The walk never adds or drops an application function. */
  lemma {:induction false} ScanKeepsKeys(m: map<string, seq<SurgeryEntry>>, funcs: map<nat, string>, address: nat, range: FileRange, insts: seq<Instruction>)
    ensures Scan(m, funcs, address, range, insts).Ok? ==> Scan(m, funcs, address, range, insts).value.Keys == m.Keys
  {
    if insts != [] {
      var init := insts[..|insts| - 1];
      ScanKeepsKeys(m, funcs, address, range, init);
      if Scan(m, funcs, address, range, init).Ok? {
        StepSpec(Scan(m, funcs, address, range, init).value, funcs, address, range, insts[|insts| - 1]);
      }
    }
  }

  /** The walk succeeds exactly when no instruction is fatal. */
  lemma {:induction false} ScanOkIff(m: map<string, seq<SurgeryEntry>>, funcs: map<nat, string>, address: nat, range: FileRange, insts: seq<Instruction>)
    ensures Scan(m, funcs, address, range, insts).Ok? <==> forall i :: 0 <= i < |insts| ==> !Fatal(m, funcs, range, insts[i])
  {
    if insts != [] {
      var init := insts[..|insts| - 1];
      var inst := insts[|insts| - 1];
      ScanOkIff(m, funcs, address, range, init);
      assert forall i :: 0 <= i < |init| ==> init[i] == insts[i];
      var r := Scan(m, funcs, address, range, init);
      if r.Ok? {
        ScanKeepsKeys(m, funcs, address, range, init);
        StepSpec(r.value, funcs, address, range, inst);
        // `Fatal` reads only the keys, which the walk keeps.
        assert Fatal(r.value, funcs, range, inst) == Fatal(m, funcs, range, inst);
      } else {
        assert !(forall i :: 0 <= i < |insts| ==> !Fatal(m, funcs, range, insts[i]));
      }
    }
  }

  /** A successful walk appends to each application function's list exactly
      its sites, in order. */
  lemma {:induction false} ScanAppendsSites(m: map<string, seq<SurgeryEntry>>, funcs: map<nat, string>, address: nat, range: FileRange, insts: seq<Instruction>)
    ensures Scan(m, funcs, address, range, insts).Ok? ==>
              forall name :: name in m && name in Scan(m, funcs, address, range, insts).value ==>
                Scan(m, funcs, address, range, insts).value[name] == m[name] + SitesFor(name, funcs, address, range, insts)
  {
    if insts != [] {
      var init := insts[..|insts| - 1];
      var inst := insts[|insts| - 1];
      ScanAppendsSites(m, funcs, address, range, init);
      var r := Scan(m, funcs, address, range, init);
      if r.Ok? {
        ScanKeepsKeys(m, funcs, address, range, init);
        StepSpec(r.value, funcs, address, range, inst);
        var step := Step(r.value, funcs, address, range, inst);
        if step.Ok? {
          ExtendSites(m, r.value, step.value, funcs, address, range, init, inst);
          assert init + [inst] == insts;
        }
      }
    }
  }

  /** One more instruction extends every list by its site. */
  lemma ExtendSites(m: map<string, seq<SurgeryEntry>>, before: map<string, seq<SurgeryEntry>>, after: map<string, seq<SurgeryEntry>>,
                    funcs: map<nat, string>, address: nat, range: FileRange, init: seq<Instruction>, inst: Instruction)
    requires before.Keys == m.Keys && after.Keys == m.Keys
    requires forall name :: name in m ==> before[name] == m[name] + SitesFor(name, funcs, address, range, init)
    requires forall name :: name in m ==> after[name] == before[name] + SiteOf(name, funcs, address, range, inst)
    ensures forall name :: name in m ==> after[name] == m[name] + SitesFor(name, funcs, address, range, init + [inst])
  {
    forall name | name in m
      ensures after[name] == m[name] + SitesFor(name, funcs, address, range, init + [inst])
    {
      SitesForSnoc(name, funcs, address, range, init, inst);
    }
  }

  lemma {:induction false} SitesForSnoc(name: string, funcs: map<nat, string>, address: nat, range: FileRange, init: seq<Instruction>, inst: Instruction)
    ensures SitesFor(name, funcs, address, range, init + [inst])
         == SitesFor(name, funcs, address, range, init) + SiteOf(name, funcs, address, range, inst)
  {
    assert (init + [inst])[..|init|] == init;
  }

  /** The walk succeeds exactly when no instruction is fatal, and then it
      appends to each application function's list exactly its sites, in
      order, and adds no other function. */
  lemma ScanSpec(m: map<string, seq<SurgeryEntry>>, funcs: map<nat, string>, address: nat, range: FileRange, insts: seq<Instruction>)
    ensures Scan(m, funcs, address, range, insts).Ok? <==> forall i :: 0 <= i < |insts| ==> !Fatal(m, funcs, range, insts[i])
    ensures Scan(m, funcs, address, range, insts).Ok? ==>
              var m' := Scan(m, funcs, address, range, insts).value;
              m'.Keys == m.Keys
              && forall name :: name in m ==> m'[name] == m[name] + SitesFor(name, funcs, address, range, insts)
  {
    ScanKeepsKeys(m, funcs, address, range, insts);
    ScanOkIff(m, funcs, address, range, insts);
    ScanAppendsSites(m, funcs, address, range, insts);
  }

  /** A recorded site covers the last `size` bytes of its branch: the field
      ends, in file coordinates, where the next instruction starts, and the
      displacement is measured from that next instruction's address. */
  lemma {:induction false} SitesEndAtNextInstruction(name: string, funcs: map<nat, string>, address: nat, range: FileRange, insts: seq<Instruction>, e: SurgeryEntry)
    requires e in SitesFor(name, funcs, address, range, insts)
    ensures e.size == 1 || e.size == 2 || e.size == 4
    ensures exists inst :: inst in insts && Hits(funcs, inst) && funcs[inst.nearBranchTarget] == name
              && e.virtualOffset == Relative(inst.nextIp)
              && (address + e.size <= inst.nextIp && inst.nextIp - address + range.offset < TWO_64 ==>
                    e.fileOffset + e.size == inst.nextIp - address + range.offset)
  {
    var init := insts[..|insts| - 1];
    var inst := insts[|insts| - 1];
    if e in SitesFor(name, funcs, address, range, init) {
      SitesEndAtNextInstruction(name, funcs, address, range, init, e);
      var i :| i in init && Hits(funcs, i) && funcs[i.nearBranchTarget] == name
              && e.virtualOffset == Relative(i.nextIp)
              && (address + e.size <= i.nextIp && i.nextIp - address + range.offset < TWO_64 ==>
                    e.fileOffset + e.size == i.nextIp - address + range.offset);
      assert i in insts;
    } else {
      assert inst in insts;
    }
  }
}
