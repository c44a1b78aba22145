/** The PLT pass of preprocessing: every JUMP_SLOT dynamic relocation owns
    one 16-byte stub of the `.plt` section (stub 0 is the resolver's own), so
    the n-th one that targets an application symbol tells where the host calls
    that symbol. */
module Plt {
  import opened Wrappers
  import opened ElfTypes

  /** `PLT_ADDRESS_OFFSET`: the size of one PLT stub. */
  const PLT_ADDRESS_OFFSET: nat := 0x10

  /** A dynamic relocation as the object reader reports it: its ELF type and
      the symbol index it targets (`None` for a section or absolute target). */
  datatype DynReloc = DynReloc(rtype: nat, target: Option<nat>)

  /** A dynamic symbol the host leaves undefined for the application. */
  datatype AppSymbol = AppSymbol(index: nat, name: string)

  /** Where `.plt` lives, and whether its file range is compressed. */
  datatype SectionRange = SectionRange(address: nat, fileOffset: nat, compressed: bool)

  predicate IsJumpSlot(r: DynReloc)
  {
    r.rtype == R_X86_64_JUMP_SLOT
  }

  /** How many JUMP_SLOT relocations `relocs` holds. */
  function JumpSlotCount(relocs: seq<DynReloc>): (r: nat)
    ensures r <= |relocs|
  {
    if relocs == [] then 0
    else JumpSlotCount(relocs[..|relocs| - 1]) + (if IsJumpSlot(relocs[|relocs| - 1]) then 1 else 0)
  }

  /** The first application symbol that `target` designates. */
  function FirstMatch(apps: seq<AppSymbol>, target: Option<nat>): (r: Option<AppSymbol>)
    ensures r.Some? <==> target.Some? && exists i :: 0 <= i < |apps| && apps[i].index == target.value
    ensures r.Some? ==> exists i :: 0 <= i < |apps| && apps[i] == r.value && r.value.index == target.value
                          && forall j :: 0 <= j < i ==> apps[j].index != target.value
  {
    if target.None? || apps == [] then None
    else if apps[0].index == target.value then Some(apps[0])
    else
      var r := FirstMatch(apps[1..], target);
      assert forall i :: 1 <= i < |apps| ==> apps[i] == apps[1..][i - 1];
      r
  }

  /** The stub of the n-th JUMP_SLOT relocation (counting from 0) lies
      n + 1 stubs past `base`. */
  function StubAt(base: nat, n: nat): nat
  {
    base + (n + 1) * PLT_ADDRESS_OFFSET
  }

  /** The two tables the loop builds: application symbol name to (stub file
      offset, stub address), and stub address to name. */
  datatype PltTables = PltTables(pltAddresses: map<string, (nat, nat)>, appFuncAddresses: map<nat, string>)

  /** One relocation, the `n`-th JUMP_SLOT one if it is a JUMP_SLOT: a
      JUMP_SLOT that targets an application symbol records its stub. */
  function Visit(t: PltTables, reloc: DynReloc, n: nat, apps: seq<AppSymbol>, address: nat, offset: nat): PltTables
  {
    if !IsJumpSlot(reloc) then t
    else match FirstMatch(apps, reloc.target)
      case None => t
      case Some(sym) =>
        PltTables(t.pltAddresses[sym.name := (StubAt(offset, n), StubAt(address, n))],
                  t.appFuncAddresses[StubAt(address, n) := sym.name])
  }

  /** The tables after the relocations of `relocs`, taken in order. */
  function Tables(relocs: seq<DynReloc>, apps: seq<AppSymbol>, address: nat, offset: nat): PltTables
  {
    if relocs == [] then PltTables(map[], map[])
    else
      Visit(Tables(relocs[..|relocs| - 1], apps, address, offset), relocs[|relocs| - 1],
            JumpSlotCount(relocs[..|relocs| - 1]), apps, address, offset)
  }


  /** The PLT loop of preprocessing. It fails when there is no `.plt`, when
      `.plt` is compressed, or when the executable has no dynamic relocations. */
  method CollectPltAddresses(plt: Option<SectionRange>, dynRelocs: Option<seq<DynReloc>>, apps: seq<AppSymbol>)
    returns (r: Result<PltTables, LinkError>)
    ensures r.Err? <==> plt.None? || plt.value.compressed || dynRelocs.None?
    ensures r.Ok? ==> r.value == Tables(dynRelocs.value, apps, plt.value.address, plt.value.fileOffset)
  {
    if plt.None? {
      return Err(NoPltSection);
    }
    if plt.value.compressed {
      return Err(CompressedPlt);
    }
    if dynRelocs.None? {
      return Err(NoDynamicRelocations);
    }
    var t := ScanJumpSlots(dynRelocs.value, apps, plt.value.address, plt.value.fileOffset);
    return Ok(t);
  }

  /** The loop over the dynamic relocations: the `i`-th JUMP_SLOT one owns
      stub `i + 1`, which it records when it targets an application symbol. */
  method ScanJumpSlots(relocs: seq<DynReloc>, apps: seq<AppSymbol>, address: nat, offset: nat) returns (t: PltTables)
    ensures t == Tables(relocs, apps, address, offset)
  {
    var pltAddresses: map<string, (nat, nat)> := map[];
    var appFuncAddresses: map<nat, string> := map[];
    var i := 0;
    var k := 0;
    while k < |relocs|
      invariant k <= |relocs|
      invariant i == JumpSlotCount(relocs[..k])
      invariant PltTables(pltAddresses, appFuncAddresses) == Tables(relocs[..k], apps, address, offset)
    {
      assert relocs[..k + 1][..k] == relocs[..k];
      var reloc := relocs[k];
      ghost var next := Visit(PltTables(pltAddresses, appFuncAddresses), reloc, i, apps, address, offset);
      assert Tables(relocs[..k + 1], apps, address, offset) == next;
      if IsJumpSlot(reloc) {
        var app := FindAppSymbol(apps, reloc.target);
        if app.Some? {
          var funcAddress := StubAt(address, i);
          var funcOffset := StubAt(offset, i);
          appFuncAddresses := appFuncAddresses[funcAddress := app.value.name];
          pltAddresses := pltAddresses[app.value.name := (funcOffset, funcAddress)];
        }
        i := i + 1;
      }
      k := k + 1;
    }
    assert relocs[..k] == relocs;
    t := PltTables(pltAddresses, appFuncAddresses);
  }

  /** The inner loop over the application symbols, which stops at the
      first one the relocation targets. */
  method FindAppSymbol(apps: seq<AppSymbol>, target: Option<nat>) returns (r: Option<AppSymbol>)
    ensures r == FirstMatch(apps, target)
  {
    var j := 0;
    while j < |apps|
      invariant j <= |apps|
      invariant FirstMatch(apps[j..], target) == FirstMatch(apps, target)
    {
      if target == Some(apps[j].index) {
        return Some(apps[j]);
      }
      assert apps[j..][1..] == apps[j + 1..];
      j := j + 1;
    }
    return None;
  }

  /** Stub addresses increase with the JUMP_SLOT count: a later JUMP_SLOT
      never reuses an earlier stub. */
  lemma {:induction false} JumpSlotCountGrows(relocs: seq<DynReloc>, k: nat)
    requires k < |relocs| && IsJumpSlot(relocs[k])
    ensures JumpSlotCount(relocs[..k]) < JumpSlotCount(relocs)
    decreases |relocs|
  {
    var init := relocs[..|relocs| - 1];
    if k < |relocs| - 1 {
      assert init[..k] == relocs[..k];
      JumpSlotCountGrows(init, k);
    } else {
      assert init == relocs[..k];
    }
  }

  /** Every address the tables hold is the stub address of one of the
      JUMP_SLOT relocations, so it lies past `address`. */
  lemma {:induction false} TablesAddresses(relocs: seq<DynReloc>, apps: seq<AppSymbol>, address: nat, offset: nat, a: nat)
    requires a in Tables(relocs, apps, address, offset).appFuncAddresses
    ensures exists n: nat :: n < JumpSlotCount(relocs) && a == StubAt(address, n)
  {
    var init := relocs[..|relocs| - 1];
    var t := Tables(init, apps, address, offset);
    if a in t.appFuncAddresses {
      TablesAddresses(init, apps, address, offset, a);
    }
  }

  /** The n-th JUMP_SLOT relocation that targets an application symbol makes
      its stub address name that symbol. */
  lemma {:induction false} SlotAddressNamesSymbol(relocs: seq<DynReloc>, apps: seq<AppSymbol>, address: nat, offset: nat, k: nat)
    requires k < |relocs| && IsJumpSlot(relocs[k]) && FirstMatch(apps, relocs[k].target).Some?
    ensures var a := StubAt(address, JumpSlotCount(relocs[..k]));
            a in Tables(relocs, apps, address, offset).appFuncAddresses
            && Tables(relocs, apps, address, offset).appFuncAddresses[a] == FirstMatch(apps, relocs[k].target).value.name
    decreases |relocs|
  {
    var init, last := relocs[..|relocs| - 1], relocs[|relocs| - 1];
    var n := JumpSlotCount(relocs[..k]);
    if k < |relocs| - 1 {
      assert init[..k] == relocs[..k];
      SlotAddressNamesSymbol(init, apps, address, offset, k);
      if IsJumpSlot(last) {
        JumpSlotCountGrows(init, k);
        StubAtGrows(address, n, JumpSlotCount(init));
      }
    } else {
      assert init == relocs[..k];
    }
  }

  lemma {:induction false} StubAtGrows(base: nat, n: nat, m: nat)
    requires n < m
    ensures StubAt(base, n) < StubAt(base, m)
  {
    assert (m + 1) * PLT_ADDRESS_OFFSET == (n + 1) * PLT_ADDRESS_OFFSET + (m - n) * PLT_ADDRESS_OFFSET;
  }

  /** Relocation `k` is a JUMP_SLOT that targets an application symbol
      named `name`, so its stub is recorded under that name. */
  predicate OwnsStub(relocs: seq<DynReloc>, apps: seq<AppSymbol>, k: nat, name: string)
  {
    k < |relocs| && IsJumpSlot(relocs[k]) && FirstMatch(apps, relocs[k].target).Some?
    && FirstMatch(apps, relocs[k].target).value.name == name
  }

  /** Relocation `k` is the last one that owns a stub for `name`. */
  predicate LastOwner(relocs: seq<DynReloc>, apps: seq<AppSymbol>, k: nat, name: string)
  {
    OwnsStub(relocs, apps, k, name) && forall j :: k < j < |relocs| ==> !OwnsStub(relocs, apps, j, name)
  }

  /** Every recorded stub address belongs to a JUMP_SLOT relocation that
      targets an application symbol, and names that symbol: the stub of a
      JUMP_SLOT without an application target is never recorded. */
  lemma AddressOwner(relocs: seq<DynReloc>, apps: seq<AppSymbol>, address: nat, offset: nat, a: nat)
    requires a in Tables(relocs, apps, address, offset).appFuncAddresses
    ensures exists k: nat :: OwnsStub(relocs, apps, k, Tables(relocs, apps, address, offset).appFuncAddresses[a])
                             && a == StubAt(address, JumpSlotCount(relocs[..k]))
  {
    var k := OwnerOfAddress(relocs, apps, address, offset, a);
  }

  /** The relocation that owns a recorded stub address. */
  lemma {:induction false} OwnerOfAddress(relocs: seq<DynReloc>, apps: seq<AppSymbol>, address: nat, offset: nat, a: nat)
    returns (k: nat)
    requires a in Tables(relocs, apps, address, offset).appFuncAddresses
    ensures k < |relocs|
    ensures OwnsStub(relocs, apps, k, Tables(relocs, apps, address, offset).appFuncAddresses[a])
    ensures a == StubAt(address, JumpSlotCount(relocs[..k]))
  {
    var init, last := relocs[..|relocs| - 1], |relocs| - 1;
    var n := JumpSlotCount(init);
    var name := Tables(relocs, apps, address, offset).appFuncAddresses[a];
    if IsJumpSlot(relocs[last]) && FirstMatch(apps, relocs[last].target).Some? && a == StubAt(address, n) {
      assert relocs[..last] == init;
      k := last;
    } else {
      VisitKeepsAddress(Tables(init, apps, address, offset), relocs[last], n, apps, address, offset, a);
      k := OwnerOfAddress(init, apps, address, offset, a);
      assert init[..k] == relocs[..k];
      OwnsStubInit(relocs, apps, k, name);
    }
  }

  /** A recorded name holds the stub of the LAST JUMP_SLOT relocation that
      targets it: a later one overwrites an earlier one's entry. */
  lemma NameLastOwner(relocs: seq<DynReloc>, apps: seq<AppSymbol>, address: nat, offset: nat, name: string)
    requires name in Tables(relocs, apps, address, offset).pltAddresses
    ensures exists k: nat :: LastOwner(relocs, apps, k, name)
                             && Tables(relocs, apps, address, offset).pltAddresses[name]
                                == (StubAt(offset, JumpSlotCount(relocs[..k])), StubAt(address, JumpSlotCount(relocs[..k])))
  {
    var k := LastOwnerOfName(relocs, apps, address, offset, name);
  }

  /** The last relocation that owns the stub recorded under a name. */
  lemma {:induction false} LastOwnerOfName(relocs: seq<DynReloc>, apps: seq<AppSymbol>, address: nat, offset: nat, name: string)
    returns (k: nat)
    requires name in Tables(relocs, apps, address, offset).pltAddresses
    ensures k < |relocs| && LastOwner(relocs, apps, k, name)
    ensures Tables(relocs, apps, address, offset).pltAddresses[name]
            == (StubAt(offset, JumpSlotCount(relocs[..k])), StubAt(address, JumpSlotCount(relocs[..k])))
  {
    var init, last := relocs[..|relocs| - 1], |relocs| - 1;
    if OwnsStub(relocs, apps, last, name) {
      assert relocs[..last] == init;
      k := last;
    } else {
      VisitKeepsName(Tables(init, apps, address, offset), relocs[last], JumpSlotCount(init), apps, address, offset, name);
      k := LastOwnerOfName(init, apps, address, offset, name);
      assert init[..k] == relocs[..k];
      forall j | k <= j < last
        ensures OwnsStub(relocs, apps, j, name) == OwnsStub(init, apps, j, name)
      {
        OwnsStubInit(relocs, apps, j, name);
      }
    }
  }

  /** Dropping the last relocation does not change who owns a stub before it. */
  lemma OwnsStubInit(relocs: seq<DynReloc>, apps: seq<AppSymbol>, k: nat, name: string)
    requires k < |relocs| - 1
    ensures OwnsStub(relocs, apps, k, name) == OwnsStub(relocs[..|relocs| - 1], apps, k, name)
  {
    assert relocs[..|relocs| - 1][k] == relocs[k];
  }

  /** A relocation that records no stub for `name` leaves its entry as it was. */
  lemma VisitKeepsName(t: PltTables, reloc: DynReloc, n: nat, apps: seq<AppSymbol>, address: nat, offset: nat, name: string)
    requires !(IsJumpSlot(reloc) && FirstMatch(apps, reloc.target).Some? && FirstMatch(apps, reloc.target).value.name == name)
    ensures var v := Visit(t, reloc, n, apps, address, offset);
            (name in v.pltAddresses <==> name in t.pltAddresses)
            && (name in t.pltAddresses ==> v.pltAddresses[name] == t.pltAddresses[name])
  {
  }

  /** A relocation that records no stub at `a` leaves its entry as it was. */
  lemma VisitKeepsAddress(t: PltTables, reloc: DynReloc, n: nat, apps: seq<AppSymbol>, address: nat, offset: nat, a: nat)
    requires !(IsJumpSlot(reloc) && FirstMatch(apps, reloc.target).Some? && a == StubAt(address, n))
    ensures var v := Visit(t, reloc, n, apps, address, offset);
            (a in v.appFuncAddresses <==> a in t.appFuncAddresses)
            && (a in t.appFuncAddresses ==> v.appFuncAddresses[a] == t.appFuncAddresses[a])
  {
  }

  /** Both directions of `t` agree: a name's stub address maps back to the
      name, its file offset sits as far past `offset` as its address past
      `address`, and every address maps to a recorded name. */
  ghost predicate Agree(t: PltTables, address: nat, offset: nat)
  {
    (forall name :: name in t.pltAddresses ==>
       t.pltAddresses[name].1 in t.appFuncAddresses
       && t.appFuncAddresses[t.pltAddresses[name].1] == name
       && exists n: nat :: t.pltAddresses[name] == (StubAt(offset, n), StubAt(address, n)))
    && (forall a :: a in t.appFuncAddresses ==> t.appFuncAddresses[a] in t.pltAddresses)
  }

  /** Both directions are recorded, and they agree. */
  lemma {:induction false} TablesAgree(relocs: seq<DynReloc>, apps: seq<AppSymbol>, address: nat, offset: nat)
    ensures Agree(Tables(relocs, apps, address, offset), address, offset)
  {
    if relocs != [] {
      var init := relocs[..|relocs| - 1];
      TablesAgree(init, apps, address, offset);
      var t := Tables(init, apps, address, offset);
      var last := relocs[|relocs| - 1];
      var n := JumpSlotCount(init);
      if IsJumpSlot(last) && FirstMatch(apps, last.target).Some? {
        var name := FirstMatch(apps, last.target).value.name;
        var a := StubAt(address, n);
        // The new stub address is past every address recorded so far.
        forall a' | a' in t.appFuncAddresses
          ensures a' != a
        {
          TablesAddresses(init, apps, address, offset, a');
        }
        var t' := Tables(relocs, apps, address, offset);
        assert t' == PltTables(t.pltAddresses[name := (StubAt(offset, n), a)], t.appFuncAddresses[a := name]);
        forall name' | name' in t'.pltAddresses
          ensures t'.pltAddresses[name'].1 in t'.appFuncAddresses
          ensures t'.appFuncAddresses[t'.pltAddresses[name'].1] == name'
          ensures exists m: nat :: t'.pltAddresses[name'] == (StubAt(offset, m), StubAt(address, m))
        {
          if name' != name {
            assert t.pltAddresses[name'].1 in t.appFuncAddresses;
          }
        }
      }
    }
  }

  /** A name is recorded exactly when some JUMP_SLOT relocation targets an
      application symbol of that name (the first one with the target index). */
  lemma {:induction false} TablesKeys(relocs: seq<DynReloc>, apps: seq<AppSymbol>, address: nat, offset: nat, name: string)
    ensures name in Tables(relocs, apps, address, offset).pltAddresses <==>
              exists k :: 0 <= k < |relocs| && IsJumpSlot(relocs[k]) && FirstMatch(apps, relocs[k].target).Some? && FirstMatch(apps, relocs[k].target).value.name == name
  {
    if relocs != [] {
      var init := relocs[..|relocs| - 1];
      TablesKeys(init, apps, address, offset, name);
      assert forall k :: 0 <= k < |init| ==> init[k] == relocs[k];
      var last := |relocs| - 1;
      if IsJumpSlot(relocs[last]) && FirstMatch(apps, relocs[last].target).Some? && FirstMatch(apps, relocs[last].target).value.name == name {
        assert exists k :: 0 <= k < |relocs| && IsJumpSlot(relocs[k]) && FirstMatch(apps, relocs[k].target).Some? && FirstMatch(apps, relocs[k].target).value.name == name;
      }
    }
  }
}
