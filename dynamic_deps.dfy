/** `scan_elf_dynamic_deps`: the walk over the host's dynamic table that
    counts its entries and finds the DT_NEEDED entry naming the placeholder
    application library; the relocation filters built beside it; and the
    splice that later removes that entry from the table. The table is read
    as 16-byte little-endian (tag, value) pairs ending at DT_NULL (System V
    gABI, chapter 5, "Dynamic Section"). */
module DynamicDeps {
  import opened Wrappers
  import opened LittleEndian
  import opened ElfTypes
  import opened Plt


  const SLASH: Byte := 0x2F
  const DOT: Byte := 0x2E

  /** The tag of entry `i` of the table at `off`. */
  function TagAt(data: seq<Byte>, off: nat, i: nat): nat
    requires off + DYN_ENTRY_SIZE * i + 8 <= |data|
  {
    Decode(data[off + DYN_ENTRY_SIZE * i .. off + DYN_ENTRY_SIZE * i + 8])
  }

  /** The value of entry `i` of the table at `off`. */
  function ValAt(data: seq<Byte>, off: nat, i: nat): nat
    requires off + DYN_ENTRY_SIZE * i + 16 <= |data|
  {
    Decode(data[off + DYN_ENTRY_SIZE * i + 8 .. off + DYN_ENTRY_SIZE * i + 16])
  }

  /** The NUL-terminated string at the start of `s`, without its NUL; `None`
      when `s` holds no NUL. */
  function CStr(s: seq<Byte>): (r: Option<seq<Byte>>)
    ensures r.Some? ==> |r.value| < |s| && s[..|r.value|] == r.value && s[|r.value|] == 0 && 0 !in r.value
    ensures r.None? ==> 0 !in s
  {
    if s == [] then None
    else if s[0] == 0 then Some([])
    else match CStr(s[1..])
      case None => None
      case Some(t) => Some([s[0]] + t)
  }

  /** The string `CStr::from_ptr` reads at offset `start` of `.dynstr`;
      `None` where the source would read outside the section. */
  function CStrAt(dynstr: seq<Byte>, start: nat): Option<seq<Byte>>
  {
    if start > |dynstr| then None else CStr(dynstr[start..])
  }

  /** `s` cut at every `/`. */
  function Split(s: seq<Byte>): (r: seq<seq<Byte>>)
    ensures |r| >= 1
    ensures forall i :: 0 <= i < |r| ==> SLASH !in r[i]
  {
    if s == [] then [[]]
    else if s[0] == SLASH then [[]] + Split(s[1..])
    else
      var rest := Split(s[1..]);
      [[s[0]] + rest[0]] + rest[1..]
  }

  /** The path components: the pieces between slashes that are neither
      empty nor `.`. */
  function Components(parts: seq<seq<Byte>>): (r: seq<seq<Byte>>)
    ensures forall i :: 0 <= i < |r| ==> r[i] in parts && r[i] != [] && r[i] != [DOT]
  {
    if parts == [] then []
    else
      var init := Components(parts[..|parts| - 1]);
      var last := parts[|parts| - 1];
      if last == [] || last == [DOT] then init else init + [last]
  }

  /** `Path::file_name`: the last component, unless the path has none or
      ends in `..`. */
  function FileName(path: seq<Byte>): (r: Option<seq<Byte>>)
    ensures r.Some? ==> SLASH !in r.value && r.value != [] && r.value != [DOT] && r.value != [DOT, DOT]
  {
    var cs := Components(Split(path));
    if cs == [] || cs[|cs| - 1] == [DOT, DOT] then None else Some(cs[|cs| - 1])
  }

  /** Entry `i` can be read: its tag lies in the file and, for DT_NEEDED,
      so does its value and the name it points at in `.dynstr`. */
  ghost predicate EntryReadable(data: seq<Byte>, off: nat, dynstr: seq<Byte>, i: nat)
  {
    off + DYN_ENTRY_SIZE * i + 8 <= |data|
    && (TagAt(data, off, i) == DT_NEEDED ==>
          off + DYN_ENTRY_SIZE * i + 16 <= |data| && CStrAt(dynstr, ValAt(data, off, i)).Some?)
  }

  /** Entry `i` can be read and is not the terminator. */
  ghost predicate Continues(data: seq<Byte>, off: nat, dynstr: seq<Byte>, i: nat)
  {
    EntryReadable(data, off, dynstr, i) && TagAt(data, off, i) != DT_NULL
  }

  /** The table at `off` holds `n` readable non-null entries followed by a
      DT_NULL entry. */
  ghost predicate Terminated(data: seq<Byte>, off: nat, dynstr: seq<Byte>, n: nat)
  {
    off + DYN_ENTRY_SIZE * n + 8 <= |data| && TagAt(data, off, n) == DT_NULL
    && forall i :: 0 <= i < n ==> Continues(data, off, dynstr, i)
  }

  /** Entry `i` is a DT_NEEDED entry whose library has the file name of `lib`. */
  ghost predicate NamesLib(data: seq<Byte>, off: nat, dynstr: seq<Byte>, lib: seq<Byte>, i: nat)
  {
    EntryReadable(data, off, dynstr, i) && TagAt(data, off, i) == DT_NEEDED
    && FileName(CStrAt(dynstr, ValAt(data, off, i)).value) == FileName(lib)
  }

  /** The number of entries before DT_NULL, and the index of the placeholder
      library's DT_NEEDED entry. */
  datatype DynTable = DynTable(count: nat, sharedLibIndex: nat)

  /** What one step of the walk finds at entry `i`. */
  datatype Entry = Unreadable | End | Needed(name: seq<Byte>) | OtherTag

  /** Reading entry `i`: its tag, and for DT_NEEDED the library name. */
  method ReadEntry(data: seq<Byte>, off: nat, dynstr: seq<Byte>, i: nat) returns (e: Entry)
    ensures e.Unreadable? <==> !EntryReadable(data, off, dynstr, i)
    ensures e.End? <==> EntryReadable(data, off, dynstr, i) && TagAt(data, off, i) == DT_NULL
    ensures e.Needed? <==> EntryReadable(data, off, dynstr, i) && TagAt(data, off, i) == DT_NEEDED
    ensures e.Needed? ==> e.name == CStrAt(dynstr, ValAt(data, off, i)).value
  {
    var start := off + DYN_ENTRY_SIZE * i;
    if start + 8 > |data| {
      return Unreadable;
    }
    var tag := Decode(data[start .. start + 8]);
    if tag == DT_NULL {
      return End;
    } else if tag == DT_NEEDED {
      if start + 16 > |data| {
        return Unreadable;
      }
      var name := CStrAt(dynstr, Decode(data[start + 8 .. start + 16]));
      if name.None? {
        return Unreadable;
      }
      return Needed(name.value);
    }
    return OtherTag;
  }

  /** The walk. It fails when an entry lies outside the file, when a name
      cannot be read, or when no DT_NEEDED entry names the library; when
      several do, the last one is kept. */
  method ScanDynamicTable(data: seq<Byte>, off: nat, dynstr: seq<Byte>, lib: seq<Byte>) returns (r: Result<DynTable, LinkError>)
    ensures r.Ok? ==> Terminated(data, off, dynstr, r.value.count)
    ensures r.Ok? ==> r.value.sharedLibIndex < r.value.count && NamesLib(data, off, dynstr, lib, r.value.sharedLibIndex)
    ensures r.Ok? ==> forall j :: r.value.sharedLibIndex < j < r.value.count ==> !NamesLib(data, off, dynstr, lib, j)
    ensures r.Err? ==> forall n: nat, i :: Terminated(data, off, dynstr, n) && 0 <= i < n ==> !NamesLib(data, off, dynstr, lib, i)
  {
    var libName := FileName(lib);
    ghost var named := (j: nat) => NamesLib(data, off, dynstr, lib, j);
    var i := 0;
    var found: Option<nat> := None;
    while true
      invariant forall k :: 0 <= k < i ==> Continues(data, off, dynstr, k)
      invariant found == LastNamed(named, i)
      decreases |data| - (off + DYN_ENTRY_SIZE * i)
    {
      var e := ReadEntry(data, off, dynstr, i);
      if e.Unreadable? {
        NoTerminatorPast(data, off, dynstr, i);
        return Err(DynamicIndexOutOfRange);
      }
      if e.End? {
        break;
      }
      assert Continues(data, off, dynstr, i);
      var hit := e.Needed? && FileName(e.name) == libName;
      assert hit == named(i);
      if hit {
        found := Some(i);
      }
      i := i + 1;
    }
    assert Terminated(data, off, dynstr, i);
    LastNamedSpec(named, i);
    if found.None? {
      TerminatorUnique(data, off, dynstr, i);
      forall n: nat, j | Terminated(data, off, dynstr, n) && 0 <= j < n
        ensures !NamesLib(data, off, dynstr, lib, j)
      {
        assert !named(j);
      }
      return Err(LibNotADependency);
    }
    assert named(found.value);
    forall j | found.value < j < i
      ensures !NamesLib(data, off, dynstr, lib, j)
    {
      assert !named(j);
    }
    return Ok(DynTable(i, found.value));
  }

  /** The last of the first `n` entries for which `named` holds, if any. */
  ghost function LastNamed(named: nat -> bool, n: nat): Option<nat>
  {
    if n == 0 then None
    else if named(n - 1) then Some(n - 1)
    else LastNamed(named, n - 1)
  }

  /** `LastNamed` finds an entry for which `named` holds with none after
      it, and finds none only when there is no such entry. */
  lemma {:induction false} LastNamedSpec(named: nat -> bool, n: nat)
    ensures var f := LastNamed(named, n);
            && (f.Some? ==> f.value < n && named(f.value))
            && (f.Some? ==> forall j :: f.value < j < n ==> !named(j))
            && (f.None? ==> forall j :: 0 <= j < n ==> !named(j))
  {
    if n > 0 {
      LastNamedSpec(named, n - 1);
    }
  }

  /** When entries before `i` are non-null and entry `i` cannot be read,
      the table has no terminator at all. */
  lemma {:induction false} NoTerminatorPast(data: seq<Byte>, off: nat, dynstr: seq<Byte>, i: nat)
    requires forall k :: 0 <= k < i ==> Continues(data, off, dynstr, k)
    requires !EntryReadable(data, off, dynstr, i)
    ensures forall n: nat :: !Terminated(data, off, dynstr, n)
  {
    forall n: nat
      ensures !Terminated(data, off, dynstr, n)
    {
      if n < i {
        assert Continues(data, off, dynstr, n);
      } else if n > i {
        assert !Continues(data, off, dynstr, i);
      }
    }
  }

  /** The terminator is the first DT_NULL, so a table has one length. */
  lemma {:induction false} TerminatorUnique(data: seq<Byte>, off: nat, dynstr: seq<Byte>, n: nat)
    requires Terminated(data, off, dynstr, n)
    ensures forall m: nat :: Terminated(data, off, dynstr, m) ==> m == n
  {
    forall m: nat | m != n
      ensures !Terminated(data, off, dynstr, m)
    {
      if m < n {
        assert Continues(data, off, dynstr, m);
      } else {
        assert !Continues(data, off, dynstr, n);
      }
    }
  }

  /** `got_app_syms`: the GLOB_DAT relocations that target an application
      symbol, as (name, symbol index), in relocation order. */
  function GotAppSyms(relocs: seq<DynReloc>, apps: seq<AppSymbol>): (r: seq<(string, nat)>)
    ensures |r| <= |relocs|
  {
    if relocs == [] then []
    else
      var last := relocs[|relocs| - 1];
      GotAppSyms(relocs[..|relocs| - 1], apps)
      + (if last.rtype == R_X86_64_GLOB_DAT && FirstMatch(apps, last.target).Some?
         then [(FirstMatch(apps, last.target).value.name, FirstMatch(apps, last.target).value.index)]
         else [])
  }

  /** `app_sym_indices`: the symbol indices of the JUMP_SLOT relocations
      that target an application symbol, in relocation order. */
  function AppSymIndices(relocs: seq<DynReloc>, apps: seq<AppSymbol>): (r: seq<nat>)
    ensures |r| <= |relocs|
  {
    if relocs == [] then []
    else
      var last := relocs[|relocs| - 1];
      AppSymIndices(relocs[..|relocs| - 1], apps)
      + (if IsJumpSlot(last) && FirstMatch(apps, last.target).Some?
         then [FirstMatch(apps, last.target).value.index]
         else [])
  }

  /** Relocation `r` is a GLOB_DAT of the application symbol `e` names. */
  predicate GotOf(r: DynReloc, apps: seq<AppSymbol>, e: (string, nat))
  {
    r.rtype == R_X86_64_GLOB_DAT && FirstMatch(apps, r.target).Some?
    && e == (FirstMatch(apps, r.target).value.name, FirstMatch(apps, r.target).value.index)
  }

  /** An entry of `got_app_syms` is an application symbol some GLOB_DAT
      relocation targets, and every such symbol is listed. */
  lemma {:induction false} GotAppSymsSpec(relocs: seq<DynReloc>, apps: seq<AppSymbol>, e: (string, nat))
    ensures e in GotAppSyms(relocs, apps) <==> exists k :: 0 <= k < |relocs| && GotOf(relocs[k], apps, e)
  {
    if relocs != [] {
      var init, last := relocs[..|relocs| - 1], relocs[|relocs| - 1];
      GotAppSymsSpec(init, apps, e);
      if e in GotAppSyms(relocs, apps) {
        if e in GotAppSyms(init, apps) {
          var k :| 0 <= k < |init| && GotOf(init[k], apps, e);
          assert relocs[k] == init[k];
        } else {
          assert GotOf(relocs[|relocs| - 1], apps, e);
        }
      }
      if exists k :: 0 <= k < |relocs| && GotOf(relocs[k], apps, e) {
        var k :| 0 <= k < |relocs| && GotOf(relocs[k], apps, e);
        if k < |init| {
          assert init[k] == relocs[k];
        }
      }
    }
  }

  /** Relocation `r` is a JUMP_SLOT of the application symbol with index `x`. */
  predicate SlotOf(r: DynReloc, apps: seq<AppSymbol>, x: nat)
  {
    IsJumpSlot(r) && FirstMatch(apps, r.target).Some? && x == FirstMatch(apps, r.target).value.index
  }

  /** An index of `app_sym_indices` belongs to an application symbol some
      JUMP_SLOT relocation targets, and every such index is listed. */
  lemma {:induction false} AppSymIndicesSpec(relocs: seq<DynReloc>, apps: seq<AppSymbol>, x: nat)
    ensures x in AppSymIndices(relocs, apps) <==> exists k :: 0 <= k < |relocs| && SlotOf(relocs[k], apps, x)
  {
    if relocs != [] {
      var init := relocs[..|relocs| - 1];
      AppSymIndicesSpec(init, apps, x);
      if x in AppSymIndices(relocs, apps) {
        if x in AppSymIndices(init, apps) {
          var k :| 0 <= k < |init| && SlotOf(init[k], apps, x);
          assert relocs[k] == init[k];
        } else {
          assert SlotOf(relocs[|relocs| - 1], apps, x);
        }
      }
      if exists k :: 0 <= k < |relocs| && SlotOf(relocs[k], apps, x) {
        var k :| 0 <= k < |relocs| && SlotOf(relocs[k], apps, x);
        if k < |init| {
          assert init[k] == relocs[k];
        }
      }
    }
  }

  /** `after` is `before` with the bytes of entries `index + 1 ..= count`
      moved down one entry (the entry at `count` is the terminator). */
  ghost predicate Spliced(before: seq<Byte>, after: seq<Byte>, off: nat, index: nat, count: nat)
  {
    |after| == |before| && index <= count && off + DYN_ENTRY_SIZE * (count + 1) <= |before|
    && (forall k :: 0 <= k < off + DYN_ENTRY_SIZE * index ==> after[k] == before[k])
    && (forall k :: off + DYN_ENTRY_SIZE * index <= k < off + DYN_ENTRY_SIZE * count ==> after[k] == before[k + DYN_ENTRY_SIZE])
    && (forall k :: off + DYN_ENTRY_SIZE * count <= k < |after| ==> after[k] == before[k])
  }

  /** Deleting the placeholder library's entry from the dynamic table: an
      overlapping copy of `16 * (count - index)` bytes one entry down
      (`std::ptr::copy`), then the entry count minus one. */
  method SpliceOutLibrary(out: array<Byte>, off: nat, index: nat, count: nat) returns (newCount: nat)
    requires index < count
    requires off + DYN_ENTRY_SIZE * (count + 1) <= out.Length
    modifies out
    ensures Spliced(old(out[..]), out[..], off, index, count)
    ensures newCount == count - 1
  {
    var dst := off + DYN_ENTRY_SIZE * index;
    var n := DYN_ENTRY_SIZE * (count - index);
    var k := 0;
    while k < n
      invariant k <= n
      invariant forall p :: 0 <= p < out.Length && !(dst <= p < dst + k) ==> out[p] == old(out[p])
      invariant forall p :: dst <= p < dst + k ==> out[p] == old(out[p + DYN_ENTRY_SIZE])
    {
      out[dst + k] := out[dst + k + DYN_ENTRY_SIZE];
      k := k + 1;
    }
    newCount := count - 1;
  }

  /** After the splice, entry `i` holds the bytes of the entry it was
      moved from: itself before the placeholder, its successor from there on. */
  lemma {:induction false} SplicedEntry(before: seq<Byte>, after: seq<Byte>, off: nat, dynstr: seq<Byte>,
                                        index: nat, count: nat, i: nat)
    requires Spliced(before, after, off, index, count) && i < count
    ensures var j := if i < index then i else i + 1;
            && TagAt(after, off, i) == TagAt(before, off, j)
            && ValAt(after, off, i) == ValAt(before, off, j)
            && (Continues(before, off, dynstr, j) ==> Continues(after, off, dynstr, i))
  {
    var j := if i < index then i else i + 1;
    var a := after[off + DYN_ENTRY_SIZE * i .. off + DYN_ENTRY_SIZE * i + 16];
    var b := before[off + DYN_ENTRY_SIZE * j .. off + DYN_ENTRY_SIZE * j + 16];
    assert a == b by {
      forall k | 0 <= k < 16
        ensures a[k] == b[k]
      {
        assert a[k] == after[off + DYN_ENTRY_SIZE * i + k];
      }
    }
    assert after[off + DYN_ENTRY_SIZE * i .. off + DYN_ENTRY_SIZE * i + 8] == a[..8] == b[..8]
        == before[off + DYN_ENTRY_SIZE * j .. off + DYN_ENTRY_SIZE * j + 8];
    assert after[off + DYN_ENTRY_SIZE * i + 8 .. off + DYN_ENTRY_SIZE * i + 16] == a[8..] == b[8..]
        == before[off + DYN_ENTRY_SIZE * j + 8 .. off + DYN_ENTRY_SIZE * j + 16];
  }

  /** After the splice the walk sees one entry fewer: the entries before the
      placeholder are as they were, those after it each moved down by one,
      and the terminator now follows entry `count - 2`. */
  lemma {:induction false} SplicedTable(before: seq<Byte>, after: seq<Byte>, off: nat, dynstr: seq<Byte>, index: nat, count: nat)
    requires Spliced(before, after, off, index, count) && index < count
    requires Terminated(before, off, dynstr, count)
    ensures Terminated(after, off, dynstr, count - 1)
    ensures forall i :: 0 <= i < index ==> TagAt(after, off, i) == TagAt(before, off, i)
    ensures forall i :: index <= i < count - 1 ==> TagAt(after, off, i) == TagAt(before, off, i + 1)
    ensures forall i :: 0 <= i < count - 1 && TagAt(after, off, i) == DT_NEEDED ==>
              ValAt(after, off, i) == ValAt(before, off, if i < index then i else i + 1)
  {
    SplicedEntry(before, after, off, dynstr, index, count, count - 1);
    forall i | 0 <= i < count - 1
      ensures Continues(after, off, dynstr, i)
      ensures TagAt(after, off, i) == TagAt(before, off, if i < index then i else i + 1)
      ensures ValAt(after, off, i) == ValAt(before, off, if i < index then i else i + 1)
    {
      SplicedEntry(before, after, off, dynstr, index, count, i);
      assert Continues(before, off, dynstr, if i < index then i else i + 1);
    }
  }
}
