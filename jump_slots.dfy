/** The pass of `gen_elf_le` over each RELA section: every record is moved to
    the new layout, GLOB_DAT records that load an application symbol become
    RELATIVE records whose addend is left for merging to patch, and the
    JUMP_SLOT records of application symbols are swapped to the tail of the
    table, neutralized, and cut off by shrinking the section size and the
    matching dynamic size entry. */
module JumpSlots {
  import opened LittleEndian
  import opened ElfTypes
  import opened AddressTranslation
  import opened Preprocess
  import opened ShiftTables

  // ---------------------------------------------------------------------
  // Moving the records; GLOB_DAT records of application symbols.

  /** An application symbol the host loads through a GLOB_DAT relocation:
      its name and its dynamic symbol index. */
  datatype GotAppSym = GotAppSym(name: string, index: nat)

  /** The symbol index as the source compares it, truncated to `u32`. */
  predicate NamesSymbol(g: GotAppSym, sym: nat)
  {
    g.index % TWO_32 == sym
  }

  /** A GLOB_DAT record that loads one of the application symbols. */
  predicate LoadsAppSymbol(r: Rela, gots: seq<GotAppSym>)
  {
    r.rtype == R_X86_64_GLOB_DAT && exists k :: 0 <= k < |gots| && NamesSymbol(gots[k], r.sym)
  }

  /** The addend of a RELATIVE record is an address; it moves as one, and
      the result is stored back as an `i64`. */
  function MovedAddend(md: Metadata, addend: nat): (r: int)
    ensures -(TWO_64 / 2) <= r < TWO_64 / 2
    ensures UpdateVirtualOffset(md, addend) < TWO_64 / 2 ==> r == UpdateVirtualOffset(md, addend)
  {
    Pow256Values();
    Signed(Wrap64(UpdateVirtualOffset(md, addend)), 8)
  }

  /** One record after the pass. A RELATIVE record's addend must not be
      negative (the source asserts it). */
  function RewriteRela(r: Rela, md: Metadata, gots: seq<GotAppSym>): (r': Rela)
    requires r.rtype == R_X86_64_RELATIVE ==> r.addend >= 0
    ensures r'.offset == UpdateVirtualOffset(md, r.offset)
    ensures LoadsAppSymbol(r, gots) ==> r'.sym == 0 && r'.rtype == R_X86_64_RELATIVE && r'.addend == r.addend
    ensures !LoadsAppSymbol(r, gots) ==> r'.sym == r.sym && r'.rtype == r.rtype
    ensures r.rtype != R_X86_64_RELATIVE ==> r'.addend == r.addend
  {
    var moved := r.(offset := UpdateVirtualOffset(md, r.offset));
    var relocated := if moved.rtype == R_X86_64_RELATIVE then moved.(addend := MovedAddend(md, moved.addend)) else moved;
    if LoadsAppSymbol(r, gots) then relocated.(sym := 0, rtype := R_X86_64_RELATIVE) else relocated
  }

  /** The file offset of the addend of record `i` of a RELA section that
      started at `secOffset` before the move: 16 bytes into the record. */
  function AddendSite(secOffset: nat, i: nat): (r: nat)
    ensures secOffset + i * RELA_ENTRY_SIZE <= r < secOffset + (i + 1) * RELA_ENTRY_SIZE
  {
    secOffset + i * RELA_ENTRY_SIZE + 16
  }

  /** The patch site recorded for the addend of record `i`: eight bytes
      holding the absolute address of the application symbol. */
  function GotSurgery(secOffset: nat, i: nat): SurgeryEntry
  {
    SurgeryEntry(AddendSite(secOffset, i), Absolute, 8)
  }

  /** `m` extends to `m'`: the same names, each list only grown at its end. */
  predicate Extends(m: map<string, seq<SurgeryEntry>>, m': map<string, seq<SurgeryEntry>>)
  {
    m'.Keys == m.Keys && forall name :: name in m ==> m[name] <= m'[name]
  }

  /** How many of `gots` carry `name` and are named by the index `sym`. */
  function Matches(gots: seq<GotAppSym>, name: string, sym: nat): (c: nat)
    ensures c <= |gots|
  {
    if gots == [] then 0
    else Matches(gots[..|gots| - 1], name, sym) + (if gots[|gots| - 1].name == name && NamesSymbol(gots[|gots| - 1], sym) then 1 else 0)
  }

  /** `Matches` is non-zero iff some GOT symbol of that name is named by the index. */
  lemma {:induction false} MatchesPositive(gots: seq<GotAppSym>, name: string, sym: nat)
    ensures Matches(gots, name, sym) > 0 <==> exists k :: 0 <= k < |gots| && gots[k].name == name && NamesSymbol(gots[k], sym)
  {
    if gots != [] {
      var init := gots[..|gots| - 1];
      MatchesPositive(init, name, sym);
      assert forall k :: 0 <= k < |init| ==> init[k] == gots[k];
    }
  }

  /** `n` copies of `e`. */
  function Repeat(e: SurgeryEntry, n: nat): (r: seq<SurgeryEntry>)
    ensures |r| == n && forall t :: 0 <= t < n ==> r[t] == e
  {
    seq(n, _ => e)
  }

  /** The inner loop over the GOT symbols for one record whose symbol index
      is `sym`: every name gains one copy of `e` per symbol of that name the
      index names. A symbol without a list adds nothing; the callers give
      every GOT symbol a list, as the source unwraps the lookup. */
  function PushGot(m: map<string, seq<SurgeryEntry>>, gots: seq<GotAppSym>, sym: nat, e: SurgeryEntry)
    : (m': map<string, seq<SurgeryEntry>>)
    ensures m'.Keys == m.Keys
    ensures forall name :: name in m ==> m'[name] == m[name] + Repeat(e, Matches(gots, name, sym))
  {
    if gots == [] then
      assert forall name :: name in m ==> m[name] + Repeat(e, 0) == m[name];
      m
    else
      var init := gots[..|gots| - 1];
      var g := gots[|gots| - 1];
      var m0 := PushGot(m, init, sym, e);
      PushGotLast(m, m0, gots, sym, e);
      if NamesSymbol(g, sym) && g.name in m0 then m0[g.name := m0[g.name] + [e]] else m0
  }

  /** The last GOT symbol's step of `PushGot`. */
  lemma {:induction false} PushGotLast(m: map<string, seq<SurgeryEntry>>, m0: map<string, seq<SurgeryEntry>>,
                                       gots: seq<GotAppSym>, sym: nat, e: SurgeryEntry)
    requires gots != []
    requires m0.Keys == m.Keys
    requires forall name :: name in m ==> m0[name] == m[name] + Repeat(e, Matches(gots[..|gots| - 1], name, sym))
    ensures var g := gots[|gots| - 1];
            var m' := if NamesSymbol(g, sym) && g.name in m0 then m0[g.name := m0[g.name] + [e]] else m0;
            m'.Keys == m.Keys && forall name :: name in m ==> m'[name] == m[name] + Repeat(e, Matches(gots, name, sym))
  {
    var g := gots[|gots| - 1];
    var m' := if NamesSymbol(g, sym) && g.name in m0 then m0[g.name := m0[g.name] + [e]] else m0;
    forall name | name in m
      ensures m'[name] == m[name] + Repeat(e, Matches(gots, name, sym))
    {
      var c := Matches(gots[..|gots| - 1], name, sym);
      if g.name == name && NamesSymbol(g, sym) {
        assert Matches(gots, name, sym) == c + 1;
        assert Repeat(e, c + 1) == Repeat(e, c) + [e];
      } else {
        assert Matches(gots, name, sym) == c;
      }
    }
  }

  /** The patch sites after the records of `relas`, taken in order. */
  function GotSurgeries(m: map<string, seq<SurgeryEntry>>, relas: seq<Rela>, gots: seq<GotAppSym>, secOffset: nat)
    : (m': map<string, seq<SurgeryEntry>>)
    ensures m'.Keys == m.Keys
  {
    if relas == [] then m
    else
      var i := |relas| - 1;
      var m0 := GotSurgeries(m, relas[..i], gots, secOffset);
      if relas[i].rtype == R_X86_64_GLOB_DAT then PushGot(m0, gots, relas[i].sym, GotSurgery(secOffset, i)) else m0
  }

  /** The walk over one more record of `s`. */
  lemma {:induction false} GotSurgeriesPrefixStep(m: map<string, seq<SurgeryEntry>>, s: seq<Rela>, gots: seq<GotAppSym>, secOffset: nat, i: nat)
    requires i < |s|
    ensures var m0 := GotSurgeries(m, s[..i], gots, secOffset);
            m0.Keys == m.Keys
            && GotSurgeries(m, s[..i + 1], gots, secOffset)
               == if s[i].rtype == R_X86_64_GLOB_DAT then PushGot(m0, gots, s[i].sym, GotSurgery(secOffset, i)) else m0
  {
    assert s[..i + 1][..i] == s[..i];
  }

  /** One record's step: a GLOB_DAT record at position `i` appends its
      patch site to every name it loads, and any other record changes nothing. */
  lemma {:induction false} GotSurgeriesStep(m: map<string, seq<SurgeryEntry>>, relas: seq<Rela>, gots: seq<GotAppSym>, secOffset: nat, name: string)
    requires relas != [] && name in m
    ensures var i := |relas| - 1;
            GotSurgeries(m, relas, gots, secOffset)[name]
              == GotSurgeries(m, relas[..i], gots, secOffset)[name]
                 + Repeat(GotSurgery(secOffset, i), if relas[i].rtype == R_X86_64_GLOB_DAT then Matches(gots, name, relas[i].sym) else 0)
  {
    var i := |relas| - 1;
    if relas[i].rtype != R_X86_64_GLOB_DAT {
      assert GotSurgeries(m, relas[..i], gots, secOffset)[name] + Repeat(GotSurgery(secOffset, i), 0)
               == GotSurgeries(m, relas[..i], gots, secOffset)[name];
    }
  }

  /** The patch sites recorded for a name are the old ones followed by
      sites of GLOB_DAT records that load that name. */
  lemma {:induction false} GotSurgeriesSound(m: map<string, seq<SurgeryEntry>>, relas: seq<Rela>,
                                             gots: seq<GotAppSym>, secOffset: nat, name: string, t: nat)
    requires name in m
    ensures m[name] <= GotSurgeries(m, relas, gots, secOffset)[name]
    ensures |m[name]| <= t < |GotSurgeries(m, relas, gots, secOffset)[name]| ==>
              exists i, k :: 0 <= i < |relas| && 0 <= k < |gots| && gots[k].name == name
                && LoadsAppSymbol(relas[i], gots) && NamesSymbol(gots[k], relas[i].sym)
                && GotSurgeries(m, relas, gots, secOffset)[name][t] == GotSurgery(secOffset, i)
  {
    if relas != [] {
      var i := |relas| - 1;
      var init := relas[..i];
      var r := GotSurgeries(m, relas, gots, secOffset)[name];
      var r0 := GotSurgeries(m, init, gots, secOffset)[name];
      GotSurgeriesStep(m, relas, gots, secOffset, name);
      GotSurgeriesSound(m, init, gots, secOffset, name, t);
      assert r0 <= r;
      if |m[name]| <= t < |r| {
        if t < |r0| {
          assert r[t] == r0[t];
          var i', k :| 0 <= i' < |init| && 0 <= k < |gots| && gots[k].name == name
                       && LoadsAppSymbol(init[i'], gots) && NamesSymbol(gots[k], init[i'].sym)
                       && r0[t] == GotSurgery(secOffset, i');
          assert relas[i'] == init[i'];
        } else {
          assert relas[i].rtype == R_X86_64_GLOB_DAT && Matches(gots, name, relas[i].sym) > 0;
          assert r[t] == GotSurgery(secOffset, i);
          MatchesPositive(gots, name, relas[i].sym);
          var k :| 0 <= k < |gots| && gots[k].name == name && NamesSymbol(gots[k], relas[i].sym);
          assert LoadsAppSymbol(relas[i], gots);
        }
      }
    }
  }

  /** Every GLOB_DAT record that loads a GOT symbol has its patch site
      recorded under that symbol's name. */
  lemma {:induction false} GotSurgeriesComplete(m: map<string, seq<SurgeryEntry>>, relas: seq<Rela>,
                                                gots: seq<GotAppSym>, secOffset: nat, i: nat, k: nat)
    requires i < |relas| && k < |gots| && relas[i].rtype == R_X86_64_GLOB_DAT && NamesSymbol(gots[k], relas[i].sym)
    requires gots[k].name in m
    ensures GotSurgery(secOffset, i) in GotSurgeries(m, relas, gots, secOffset)[gots[k].name]
  {
    var name := gots[k].name;
    var last := |relas| - 1;
    var init := relas[..last];
    var r := GotSurgeries(m, relas, gots, secOffset)[name];
    var r0 := GotSurgeries(m, init, gots, secOffset)[name];
    GotSurgeriesStep(m, relas, gots, secOffset, name);
    if i < last {
      assert init[i] == relas[i];
      GotSurgeriesComplete(m, init, gots, secOffset, i, k);
      var t :| 0 <= t < |r0| && r0[t] == GotSurgery(secOffset, i);
      assert r[t] == r0[t];
    } else {
      MatchesPositive(gots, name, relas[i].sym);
      assert Matches(gots, name, relas[i].sym) > 0;
      assert r[|r| - 1] == GotSurgery(secOffset, i);
    }
  }

  /** The inner loop over the GOT symbols for a GLOB_DAT record with symbol
      index `sym`: `hit` tells whether the record is to become RELATIVE. */
  method PushGotSites(surgeries: map<string, seq<SurgeryEntry>>, gots: seq<GotAppSym>, sym: nat, e: SurgeryEntry)
    returns (surgeries': map<string, seq<SurgeryEntry>>, hit: bool)
    requires forall k :: 0 <= k < |gots| ==> gots[k].name in surgeries
    ensures surgeries' == PushGot(surgeries, gots, sym, e)
    ensures hit <==> exists k :: 0 <= k < |gots| && NamesSymbol(gots[k], sym)
  {
    surgeries', hit := surgeries, false;
    var k := 0;
    assert gots[..0] == [];
    while k < |gots|
      invariant k <= |gots|
      invariant surgeries' == PushGot(surgeries, gots[..k], sym, e)
      invariant hit == AnyNamed(gots[..k], sym)
    {
      PushGotStep(surgeries, gots, k, sym, e);
      if NamesSymbol(gots[k], sym) {
        hit := true;
        var name := gots[k].name;
        surgeries' := surgeries'[name := surgeries'[name] + [e]];
      }
      k := k + 1;
    }
    assert gots[..k] == gots;
    AnyNamedExists(gots, sym);
  }

  /** Whether the index `sym` names one of `gots`. */
  function AnyNamed(gots: seq<GotAppSym>, sym: nat): bool
  {
    gots != [] && (AnyNamed(gots[..|gots| - 1], sym) || NamesSymbol(gots[|gots| - 1], sym))
  }

  lemma {:induction false} AnyNamedExists(gots: seq<GotAppSym>, sym: nat)
    ensures AnyNamed(gots, sym) <==> exists k :: 0 <= k < |gots| && NamesSymbol(gots[k], sym)
  {
    if gots != [] {
      var init := gots[..|gots| - 1];
      AnyNamedExists(init, sym);
      assert forall k :: 0 <= k < |init| ==> init[k] == gots[k];
    }
  }

  /** One more GOT symbol in the inner loop. */
  lemma {:induction false} PushGotStep(m: map<string, seq<SurgeryEntry>>, gots: seq<GotAppSym>, k: nat, sym: nat, e: SurgeryEntry)
    requires forall k :: 0 <= k < |gots| ==> gots[k].name in m
    requires k < |gots|
    ensures var m0 := PushGot(m, gots[..k], sym, e);
            gots[k].name in m0
            && PushGot(m, gots[..k + 1], sym, e) == (if NamesSymbol(gots[k], sym) then m0[gots[k].name := m0[gots[k].name] + [e]] else m0)
            && AnyNamed(gots[..k + 1], sym) == (AnyNamed(gots[..k], sym) || NamesSymbol(gots[k], sym))
  {
    var g1 := gots[..k + 1];
    assert g1[..k] == gots[..k] && g1[k] == gots[k];
  }

  /** The body of the first loop for one record, whose patch site would be `e`. */
  method RewriteRecord(r: Rela, md: Metadata, gots: seq<GotAppSym>, surgeries: map<string, seq<SurgeryEntry>>, e: SurgeryEntry)
    returns (r': Rela, surgeries': map<string, seq<SurgeryEntry>>)
    requires r.rtype == R_X86_64_RELATIVE ==> r.addend >= 0
    requires forall k :: 0 <= k < |gots| ==> gots[k].name in surgeries
    ensures r' == RewriteRela(r, md, gots)
    ensures surgeries' == if r.rtype == R_X86_64_GLOB_DAT then PushGot(surgeries, gots, r.sym, e) else surgeries
  {
    r' := r.(offset := UpdateVirtualOffset(md, r.offset));
    if r'.rtype == R_X86_64_RELATIVE {
      r' := r'.(addend := MovedAddend(md, r'.addend));
    }
    surgeries' := surgeries;
    if r'.rtype == R_X86_64_GLOB_DAT {
      var hit;
      surgeries', hit := PushGotSites(surgeries, gots, r'.sym, e);
      if hit {
        r' := r'.(sym := 0, rtype := R_X86_64_RELATIVE);
      }
    }
  }

  /** The first loop over the records of one RELA section: each record is
      rewritten, and a patch site is recorded for every application symbol
      a GLOB_DAT record loads. Every GOT symbol has a surgery list (the
      source unwraps the lookup). */
  method RewriteRelocations(relas: array<Rela>, md: Metadata, gots: seq<GotAppSym>, secOffset: nat)
    returns (surgeries: map<string, seq<SurgeryEntry>>)
    requires forall i :: 0 <= i < relas.Length && relas[i].rtype == R_X86_64_RELATIVE ==> relas[i].addend >= 0
    requires forall k :: 0 <= k < |gots| ==> gots[k].name in md.surgeries
    modifies relas
    ensures relas[..] == Rewritten(old(relas[..]), md, gots)
    ensures surgeries == GotSurgeries(md.surgeries, old(relas[..]), gots, secOffset)
  {
    ghost var s := relas[..];
    var m := md.surgeries;
    surgeries := m;
    var i := 0;
    while i < relas.Length
      invariant i <= relas.Length
      invariant relas[..] == Rewritten(s[..i], md, gots) + s[i..]
      invariant surgeries == GotSurgeries(m, s[..i], gots, secOffset)
    {
      GotSurgeriesPrefixStep(m, s, gots, secOffset, i);
      RewrittenStep(s, md, gots, i);
      var rel;
      rel, surgeries := RewriteRecord(relas[i], md, gots, surgeries, GotSurgery(secOffset, i));
      relas[i] := rel;
      i := i + 1;
    }
    assert s[..i] == s;
  }

  // ---------------------------------------------------------------------
  // Removing the application's JUMP_SLOT records.

  /** A JUMP_SLOT record whose symbol the application defines. */
  predicate IsAppJumpSlot(r: Rela, appSymIndices: seq<nat>)
  {
    r.rtype == R_X86_64_JUMP_SLOT && r.sym in appSymIndices
  }

  /** Position `k` of `d` is below the one before it. */
  predicate StepsDown(d: seq<nat>, k: nat)
    requires 0 < k < |d|
  {
    d[k - 1] > d[k]
  }

  /** `to_remove` once sorted and reversed: the positions of the
      application's JUMP_SLOT records, highest first. */
  function RemovalOrder(s: seq<Rela>, appSymIndices: seq<nat>): (d: seq<nat>)
    ensures RemovalPlan(|s|, d)
    ensures forall k :: 0 <= k < |d| ==> IsAppJumpSlot(s[d[k]], appSymIndices)
  {
    if s == [] then []
    else
      var init := s[..|s| - 1];
      var d := RemovalOrder(init, appSymIndices);
      assert forall i :: 0 <= i < |init| ==> init[i] == s[i];
      if IsAppJumpSlot(s[|s| - 1], appSymIndices) then
        var d' := [|s| - 1] + d;
        assert forall k :: 1 <= k < |d'| ==> d'[k] == d[k - 1];
        assert forall k :: 1 < k < |d'| ==> StepsDown(d', k) == StepsDown(d, k - 1);
        d'
      else d
  }

  /** The records the removal keeps, in their original order. */
  function Kept(s: seq<Rela>, appSymIndices: seq<nat>): (r: seq<Rela>)
    ensures |r| <= |s|
  {
    if s == [] then []
    else
      var r := Kept(s[..|s| - 1], appSymIndices);
      if IsAppJumpSlot(s[|s| - 1], appSymIndices) then r else r + [s[|s| - 1]]
  }

  /** Every JUMP_SLOT record of the application is in the removal order. */
  lemma {:induction false} RemovalOrderComplete(s: seq<Rela>, appSymIndices: seq<nat>, i: nat)
    requires i < |s| && IsAppJumpSlot(s[i], appSymIndices)
    ensures i in RemovalOrder(s, appSymIndices)
  {
    var init := s[..|s| - 1];
    if i < |s| - 1 {
      assert init[i] == s[i];
      RemovalOrderComplete(init, appSymIndices, i);
    }
  }

  /** `Kept` keeps no JUMP_SLOT record of the application. */
  lemma {:induction false} KeptHasNoAppSlot(s: seq<Rela>, appSymIndices: seq<nat>, x: Rela)
    requires x in multiset(Kept(s, appSymIndices))
    ensures !IsAppJumpSlot(x, appSymIndices)
  {
    var init := s[..|s| - 1];
    var r := Kept(init, appSymIndices);
    if !IsAppJumpSlot(s[|s| - 1], appSymIndices) {
      assert multiset(r + [s[|s| - 1]]) == multiset(r) + multiset{s[|s| - 1]};
    }
    if x in multiset(r) {
      KeptHasNoAppSlot(init, appSymIndices, x);
    }
  }

  /** A removed record: its type becomes NONE, its symbol stays. */
  function Neutralize(r: Rela): Rela
  {
    r.(rtype := R_X86_64_NONE)
  }

  /** One iteration of the removal loop: records `i` and `j` swap, then the
      one now at `j` is neutralized. */
  function SwapOut(a: seq<Rela>, i: nat, j: nat): (b: seq<Rela>)
    requires i < |a| && j < |a|
    ensures |b| == |a|
  {
    a[i := a[j]][j := Neutralize(a[i])]
  }

  /** Positions to remove from `n` records, highest first, that the loop
      can take in turn while `j` counts down from `n - 1`. */
  predicate RemovalPlan(n: nat, d: seq<nat>)
  {
    |d| <= n && (forall k :: 0 <= k < |d| ==> d[k] + k < n) && (forall k :: 0 < k < |d| ==> StepsDown(d, k))
  }

  /** The records after the loop has taken the positions of `d` in turn. */
  function Removed(s: seq<Rela>, d: seq<nat>): (b: seq<Rela>)
    requires RemovalPlan(|s|, d)
    ensures |b| == |s|
  {
    if d == [] then s
    else
      var u := |d| - 1;
      PlanPrefix(|s|, d, u);
      SwapOut(Removed(s, d[..u]), d[u], |s| - 1 - u)
  }

  /** The records at the positions of `d`. */
  function Picked(s: seq<Rela>, d: seq<nat>): (r: seq<Rela>)
    requires forall k :: 0 <= k < |d| ==> d[k] < |s|
  {
    seq(|d|, k requires 0 <= k < |d| => s[d[k]])
  }

  /** One swap takes the record at `i` out of the first `j + 1` records. */
  lemma {:induction false} SwapOutTakes(a: seq<Rela>, i: nat, j: nat)
    requires i <= j < |a|
    ensures multiset(SwapOut(a, i, j)[..j]) + multiset{a[i]} == multiset(a[..j + 1])
  {
    var b := SwapOut(a, i, j);
    assert a[..j + 1] == a[..j] + [a[j]];
    if i < j {
      assert b[..j] == a[..j][i := a[j]];
    } else {
      assert b[..j] == a[..j];
    }
  }

  /** Positions below the last one taken are untouched, and the tail holds
      the taken records neutralized, the first taken at the very end. */
  lemma {:induction false} RemovedPositions(s: seq<Rela>, d: seq<nat>)
    requires RemovalPlan(|s|, d)
    ensures forall p :: 0 <= p < |s| && (d == [] || p < d[|d| - 1]) ==> Removed(s, d)[p] == s[p]
    ensures forall u :: 0 <= u < |d| ==> Removed(s, d)[|s| - 1 - u] == Neutralize(s[d[u]])
  {
    if d != [] {
      var u := |d| - 1;
      var d' := d[..u];
      PlanPrefix(|s|, d, u);
      RemovedPositions(s, d');
      var a := Removed(s, d');
      var i, j := d[u], |s| - 1 - u;
      var b := Removed(s, d);
      assert b == SwapOut(a, i, j);
      assert a[i] == s[i] by {
        if u > 0 {
          assert StepsDown(d, u) && d'[u - 1] == d[u - 1] > i;
        }
      }
      forall p | 0 <= p < |s| && p < i
        ensures b[p] == s[p]
      {
        if u > 0 {
          assert StepsDown(d, u) && d'[u - 1] == d[u - 1];
        }
      }
      forall u' | 0 <= u' < |d|
        ensures b[|s| - 1 - u'] == Neutralize(s[d[u']])
      {
        if u' < u {
          assert d'[u'] == d[u'];
        }
      }
    }
  }

  /** A plan's prefix is a plan. */
  lemma {:induction false} PlanPrefix(n: nat, d: seq<nat>, u: nat)
    requires RemovalPlan(n, d) && u <= |d|
    ensures RemovalPlan(n, d[..u])
  {
    forall k | 0 < k < u
      ensures StepsDown(d[..u], k)
    {
      assert StepsDown(d, k);
    }
  }

  /** The record the last step takes is still the original one. */
  lemma {:induction false} TakenIsOriginal(s: seq<Rela>, d: seq<nat>)
    requires RemovalPlan(|s|, d) && d != []
    ensures RemovalPlan(|s|, d[..|d| - 1])
    ensures Removed(s, d[..|d| - 1])[d[|d| - 1]] == s[d[|d| - 1]]
  {
    var u := |d| - 1;
    var d' := d[..u];
    PlanPrefix(|s|, d, u);
    RemovedPositions(s, d');
    if u > 0 {
      assert StepsDown(d, u) && d'[u - 1] == d[u - 1] > d[u];
    }
  }

  /** The loop's step: taking one more position of the plan is one swap. */
  lemma {:induction false} RemovedStep(s: seq<Rela>, d: seq<nat>, t: nat)
    requires RemovalPlan(|s|, d) && t < |d|
    ensures RemovalPlan(|s|, d[..t]) && RemovalPlan(|s|, d[..t + 1])
    ensures d[t] < |s| && |s| - 1 - t >= 0
    ensures Removed(s, d[..t + 1]) == SwapOut(Removed(s, d[..t]), d[t], |s| - 1 - t)
  {
    PlanPrefix(|s|, d, t);
    PlanPrefix(|s|, d, t + 1);
    var d1 := d[..t + 1];
    assert d1[..|d1| - 1] == d[..t] && d1[|d1| - 1] == d[t] && |d1| == t + 1;
    RemovedUnfold(s, d1);
  }

  lemma {:induction false} RemovedUnfold(s: seq<Rela>, d: seq<nat>)
    requires RemovalPlan(|s|, d) && d != []
    ensures RemovalPlan(|s|, d[..|d| - 1])
    ensures Removed(s, d) == SwapOut(Removed(s, d[..|d| - 1]), d[|d| - 1], |s| - |d|)
  {
    PlanPrefix(|s|, d, |d| - 1);
  }

  /** Picking one more position appends its record. */
  lemma {:induction false} PickedStep(s: seq<Rela>, d: seq<nat>, t: nat)
    requires forall k :: 0 <= k < |d| ==> d[k] < |s|
    requires t < |d|
    ensures Picked(s, d[..t + 1]) == Picked(s, d[..t]) + [s[d[t]]]
  {
  }

  /** The records left in the head, with the records taken, are the
      records of `s`. */
  lemma {:induction false} RemovedKeepsRecords(s: seq<Rela>, d: seq<nat>)
    requires RemovalPlan(|s|, d)
    ensures multiset(Removed(s, d)[..|s| - |d|]) + multiset(Picked(s, d)) == multiset(s)
  {
    if d == [] {
      assert Removed(s, d)[..|s|] == s;
    } else {
      var u := |d| - 1;
      var d' := d[..u];
      TakenIsOriginal(s, d);
      RemovedKeepsRecords(s, d');
      var a := Removed(s, d');
      var i, j := d[u], |s| - 1 - u;
      RemovedStep(s, d, u);
      assert d[..u + 1] == d;
      var b := Removed(s, d);
      assert b == SwapOut(a, i, j);
      SwapOutTakes(a, i, j);
      PickedStep(s, d, u);
      assert multiset(Picked(s, d)) == multiset(Picked(s, d')) + multiset{s[i]};
      MultisetShift(multiset(b[..j]), multiset(a[..j + 1]), multiset(Picked(s, d')), multiset(s), s[i]);
    }
  }

  lemma MultisetShift(x: multiset<Rela>, y: multiset<Rela>, z: multiset<Rela>, w: multiset<Rela>, e: Rela)
    requires x + multiset{e} == y && y + z == w
    ensures x + (z + multiset{e}) == w
  {
  }

  /** Records picked from a prefix are picked alike from the whole. */
  lemma {:induction false} PickedFromPrefix(init: seq<Rela>, x: Rela, d: seq<nat>)
    requires forall k :: 0 <= k < |d| ==> d[k] < |init|
    ensures Picked(init + [x], d) == Picked(init, d)
    ensures Picked(init + [x], [|init|] + d) == [x] + Picked(init, d)
  {
    var p := Picked(init + [x], [|init|] + d);
    assert forall k :: 1 <= k < |p| ==> p[k] == init[d[k - 1]];
  }

  /** The removal order picks exactly the records `Kept` leaves out. */
  lemma {:induction false} KeptAndPicked(s: seq<Rela>, appSymIndices: seq<nat>)
    ensures multiset(Kept(s, appSymIndices)) + multiset(Picked(s, RemovalOrder(s, appSymIndices))) == multiset(s)
  {
    if s != [] {
      var init := s[..|s| - 1];
      var x := s[|s| - 1];
      KeptAndPicked(init, appSymIndices);
      var d0 := RemovalOrder(init, appSymIndices);
      assert s == init + [x];
      PickedFromPrefix(init, x, d0);
      assert multiset(s) == multiset(init) + multiset{x};
    }
  }

  lemma {:induction false} MultisetCancel(a: multiset<Rela>, b: multiset<Rela>, c: multiset<Rela>)
    requires a + c == b + c
    ensures a == b
  {
    forall x
      ensures a[x] == b[x]
    {
      assert (a + c)[x] == (b + c)[x];
    }
  }

  /** After the loop the first `|s| - k` records, `k` the number removed,
      are the kept records, as a multiset. */
  lemma {:induction false} RemovalHeadIsKept(s: seq<Rela>, appSymIndices: seq<nat>)
    ensures var d := RemovalOrder(s, appSymIndices);
            multiset(Removed(s, d)[..|s| - |d|]) == multiset(Kept(s, appSymIndices))
  {
    var d := RemovalOrder(s, appSymIndices);
    RemovedKeepsRecords(s, d);
    KeptAndPicked(s, appSymIndices);
    MultisetCancel(multiset(Removed(s, d)[..|s| - |d|]), multiset(Kept(s, appSymIndices)), multiset(Picked(s, d)));
  }

  /** No JUMP_SLOT record of the application is left in the head. */
  lemma {:induction false} RemovalHeadClean(s: seq<Rela>, appSymIndices: seq<nat>, p: nat)
    requires p < |s| - |RemovalOrder(s, appSymIndices)|
    ensures !IsAppJumpSlot(Removed(s, RemovalOrder(s, appSymIndices))[p], appSymIndices)
  {
    var d := RemovalOrder(s, appSymIndices);
    var b := Removed(s, d);
    var h := |s| - |d|;
    var kept := Kept(s, appSymIndices);
    RemovalHeadIsKept(s, appSymIndices);
    HeadMember(b, kept, h, p);
    KeptHasNoAppSlot(s, appSymIndices, b[p]);
  }

  lemma {:induction false} HeadMember(b: seq<Rela>, kept: seq<Rela>, h: nat, p: nat)
    requires p < h <= |b| && multiset(b[..h]) == multiset(kept)
    ensures b[p] in multiset(kept)
  {
    assert b[..h][p] == b[p];
    assert b[p] in multiset(b[..h]);
  }

  /** The last `k` records are removed JUMP_SLOT records of the
      application, with type NONE. */
  lemma {:induction false} RemovalTail(s: seq<Rela>, appSymIndices: seq<nat>, p: nat)
    requires |s| - |RemovalOrder(s, appSymIndices)| <= p < |s|
    ensures var b := Removed(s, RemovalOrder(s, appSymIndices));
            b[p].rtype == R_X86_64_NONE
            && exists i :: 0 <= i < |s| && IsAppJumpSlot(s[i], appSymIndices) && b[p] == Neutralize(s[i])
  {
    var d := RemovalOrder(s, appSymIndices);
    RemovedPositions(s, d);
    var u := |s| - 1 - p;
    assert Removed(s, d)[p] == Neutralize(s[d[u]]);
  }

  /** A table with one application JUMP_SLOT record ahead of two kept
      GLOB_DAT records. */
  function ReorderExample(): (s: seq<Rela>)
    ensures |s| == 4
  {
    [Rela(0x0, 1, R_X86_64_GLOB_DAT, 0), Rela(0x8, 5, R_X86_64_JUMP_SLOT, 0),
     Rela(0x10, 2, R_X86_64_GLOB_DAT, 0), Rela(0x18, 3, R_X86_64_GLOB_DAT, 0)]
  }

  /** In the example only record 1 is removed, and the others are kept in
      their order. */
  lemma {:induction false} ReorderExampleKept()
    ensures RemovalOrder(ReorderExample(), [5]) == [1]
    ensures Kept(ReorderExample(), [5]) == [ReorderExample()[0], ReorderExample()[2], ReorderExample()[3]]
  {
    var s := ReorderExample();
    assert s[..3] == [s[0], s[1], s[2]] && s[..2] == [s[0], s[1]] && s[..1] == [s[0]];
    assert [s[0], s[1], s[2]][..2] == s[..2] && [s[0], s[1]][..1] == s[..1] && [s[0]][..0] == [];
    assert RemovalOrder(s[..1], [5]) == [] && Kept(s[..1], [5]) == [s[0]];
    assert RemovalOrder(s[..2], [5]) == [1] && Kept(s[..2], [5]) == [s[0]];
    assert RemovalOrder(s[..3], [5]) == [1] && Kept(s[..3], [5]) == [s[0], s[2]];
  }

  /** The swaps do not keep the kept records in order: with one removed
      record ahead of two kept ones, the last record is swapped forward. */
  lemma {:induction false} RemovalReorders()
    ensures var s := ReorderExample();
            RemovalOrder(s, [5]) == [1]
            && Removed(s, [1])[..3] == [s[0], s[3], s[2]]
            && Kept(s, [5]) == [s[0], s[2], s[3]]
  {
    ReorderExampleKept();
    var s := ReorderExample();
    assert [1][..0] == [];
  }

  /** One iteration of the removal loop, on the records in place. */
  method SwapOutAt(relas: array<Rela>, i: nat, j: nat)
    requires i < relas.Length && j < relas.Length
    modifies relas
    ensures relas[..] == SwapOut(old(relas[..]), i, j)
  {
    var taken := relas[i];
    relas[i] := relas[j];
    relas[j] := Neutralize(taken);
  }

  /** The collection of `to_remove`, sorted highest first. */
  method CollectRemovals(relas: array<Rela>, appSymIndices: seq<nat>) returns (toRemove: seq<nat>)
    ensures toRemove == RemovalOrder(relas[..], appSymIndices)
  {
    toRemove := [];
    var i := 0;
    while i < relas.Length
      invariant i <= relas.Length
      invariant toRemove == RemovalOrder(relas[..i], appSymIndices)
    {
      assert relas[..i + 1][..i] == relas[..i];
      if IsAppJumpSlot(relas[i], appSymIndices) {
        toRemove := [i] + toRemove;
      }
      i := i + 1;
    }
    assert relas[..i] == relas[..];
  }

  /** The collection loop and the removal loop. An empty table is left
      alone (the release reading of `relocations.len() - 1`). */
  method RemoveAppJumpSlots(relas: array<Rela>, appSymIndices: seq<nat>) returns (removed: nat)
    modifies relas
    ensures removed == |RemovalOrder(old(relas[..]), appSymIndices)|
    ensures relas[..] == Removed(old(relas[..]), RemovalOrder(old(relas[..]), appSymIndices))
  {
    ghost var s := relas[..];
    var toRemove := CollectRemovals(relas, appSymIndices);
    var j := relas.Length - 1;
    var t := 0;
    assert toRemove[..0] == [];
    while t < |toRemove|
      invariant t <= |toRemove|
      invariant j == relas.Length - 1 - t
      invariant RemovalPlan(|s|, toRemove[..t])
      invariant relas[..] == Removed(s, toRemove[..t])
    {
      RemovedStep(s, toRemove, t);
      SwapOutAt(relas, toRemove[t], j);
      j := j - 1;
      t := t + 1;
    }
    assert toRemove[..t] == toRemove;
    removed := |toRemove|;
  }

  // ---------------------------------------------------------------------
  // Shrinking the section and the dynamic size entries.

  /** `is_rela_dyn` and `is_rela_plt`: some entry tagged `tag` holds the
      section's original offset. */
  predicate NamesSection(dyns: seq<DynEntry>, tag: nat, secOffset: nat)
  {
    exists i :: 0 <= i < |dyns| && Tag32(dyns[i]) == tag && dyns[i].val == secOffset
  }

  /** A dynamic entry once `removedSize` bytes of records are cut: the
      relocation table size of the table the section is. */
  function ShrinkDynamic(d: DynEntry, relaDyn: bool, relaPlt: bool, removedSize: nat): (r: DynEntry)
    ensures r.tag == d.tag
    ensures (Tag32(d) == DT_RELASZ && relaDyn) || (Tag32(d) == DT_PLTRELSZ && relaPlt) ==> r.val == Wrap64(d.val - removedSize)
    ensures !((Tag32(d) == DT_RELASZ && relaDyn) || (Tag32(d) == DT_PLTRELSZ && relaPlt)) ==> r == d
  {
    if Tag32(d) == DT_RELASZ && relaDyn then d.(val := Wrap64(d.val - removedSize))
    else if Tag32(d) == DT_PLTRELSZ && relaPlt then d.(val := Wrap64(d.val - removedSize))
    else d
  }

  /** The section headers once section `index` has lost `removed` records
      (a `u64` difference). */
  function ShrunkHeaders(shs: seq<SectionHeader>, index: nat, removed: nat): seq<SectionHeader>
    requires index < |shs|
  {
    shs[index := shs[index].(shSize := Wrap64(shs[index].shSize - removed * RELA_ENTRY_SIZE))]
  }

  method AnyNames(dyns: array<DynEntry>, tag: nat, secOffset: nat) returns (b: bool)
    ensures b == NamesSection(dyns[..], tag, secOffset)
  {
    var i := 0;
    while i < dyns.Length
      invariant i <= dyns.Length
      invariant forall p :: 0 <= p < i ==> !(Tag32(dyns[p]) == tag && dyns[p].val == secOffset)
    {
      if Tag32(dyns[i]) == tag && dyns[i].val == secOffset {
        assert dyns[..][i] == dyns[i];
        return true;
      }
      i := i + 1;
    }
    return false;
  }

  /** The section loses `removed` records; the dynamic size entry of the
      table that the section is loses as many bytes; a section named by
      DT_RELA becomes the one later passes append to. */
  method ShrinkSection(shs: array<SectionHeader>, dyns: array<DynEntry>, sec: RelaSection, removed: nat, md: Metadata)
    returns (md': Metadata)
    requires sec.index < shs.Length
    modifies shs, dyns
    ensures shs[..] == ShrunkHeaders(old(shs[..]), sec.index, removed)
    ensures forall i :: 0 <= i < dyns.Length ==>
              dyns[i] == ShrinkDynamic(old(dyns[i]), NamesSection(old(dyns[..]), DT_RELA, sec.offset),
                                       NamesSection(old(dyns[..]), DT_JMPREL, sec.offset), removed * RELA_ENTRY_SIZE)
    ensures md' == if NamesSection(old(dyns[..]), DT_RELA, sec.offset) then md.(relaSectionIndex := sec.index) else md
  {
    var removedSize := removed * RELA_ENTRY_SIZE;
    var oldSize := shs[sec.index].shSize;
    shs[sec.index] := shs[sec.index].(shSize := Wrap64(oldSize - removedSize));
    assert shs[..] == ShrunkHeaders(old(shs[..]), sec.index, removed);
    var relaDyn := AnyNames(dyns, DT_RELA, sec.offset);
    md' := md;
    if relaDyn {
      md' := md.(relaSectionIndex := sec.index);
    }
    var relaPlt := AnyNames(dyns, DT_JMPREL, sec.offset);
    MapInPlace(dyns, d => ShrinkDynamic(d, relaDyn, relaPlt, removedSize));
  }

  /** A section of `n` records that loses `k` of them, and whose dynamic
      size entry agreed with its size, is left with a size of `n - k`
      records on both sides. */
  lemma {:induction false} ShrunkSizesAgree(n: nat, k: nat, d: DynEntry)
    requires k <= n && n * RELA_ENTRY_SIZE < TWO_64
    requires Tag32(d) == DT_RELASZ && d.val == n * RELA_ENTRY_SIZE
    ensures ShrinkDynamic(d, true, false, k * RELA_ENTRY_SIZE).val == (n - k) * RELA_ENTRY_SIZE
    ensures Wrap64(n * RELA_ENTRY_SIZE - k * RELA_ENTRY_SIZE) == (n - k) * RELA_ENTRY_SIZE
  {
    assert n * RELA_ENTRY_SIZE - k * RELA_ENTRY_SIZE == (n - k) * RELA_ENTRY_SIZE;
  }

  // ---------------------------------------------------------------------
  // The whole pass over one section.

  /** The records of a section after the first loop. */
  function Rewritten(s: seq<Rela>, md: Metadata, gots: seq<GotAppSym>): (r: seq<Rela>)
    requires forall i :: 0 <= i < |s| && s[i].rtype == R_X86_64_RELATIVE ==> s[i].addend >= 0
    ensures |r| == |s|
  {
    if s == [] then [] else Rewritten(s[..|s| - 1], md, gots) + [RewriteRela(s[|s| - 1], md, gots)]
  }

  /** Rewriting record `i` of the table that holds `Rewritten(s[..i])`
      followed by `s[i..]`. */
  lemma {:induction false} RewrittenStep(s: seq<Rela>, md: Metadata, gots: seq<GotAppSym>, i: nat)
    requires forall i :: 0 <= i < |s| && s[i].rtype == R_X86_64_RELATIVE ==> s[i].addend >= 0
    requires i < |s|
    ensures var t := Rewritten(s[..i], md, gots) + s[i..];
            i < |t| && t[i] == s[i]
            && Rewritten(s[..i + 1], md, gots) + s[i + 1..] == t[i := RewriteRela(s[i], md, gots)]
  {
    assert s[..i + 1][..i] == s[..i];
    assert s[i..] == [s[i]] + s[i + 1..];
  }

  /** Each record of `Rewritten` is its original record rewritten. */
  lemma {:induction false} RewrittenAt(s: seq<Rela>, md: Metadata, gots: seq<GotAppSym>, i: nat)
    requires forall i :: 0 <= i < |s| && s[i].rtype == R_X86_64_RELATIVE ==> s[i].addend >= 0
    requires i < |s|
    ensures Rewritten(s, md, gots)[i] == RewriteRela(s[i], md, gots)
  {
    var init := s[..|s| - 1];
    if i < |init| {
      RewrittenAt(init, md, gots, i);
      assert init[i] == s[i];
    }
  }

  /** One iteration of the loop over the RELA sections: `relas` is the
      section's records, `shs` the section headers and `dyns` the dynamic
      table, each as the output file holds them. */
  method ProcessRelaSection(relas: array<Rela>, shs: array<SectionHeader>, dyns: array<DynEntry>, sec: RelaSection,
                            md: Metadata, gots: seq<GotAppSym>, appSymIndices: seq<nat>)
    returns (md': Metadata)
    requires sec.index < shs.Length
    requires forall i :: 0 <= i < relas.Length && relas[i].rtype == R_X86_64_RELATIVE ==> relas[i].addend >= 0
    requires forall k :: 0 <= k < |gots| ==> gots[k].name in md.surgeries
    modifies relas, shs, dyns
    ensures var r := Rewritten(old(relas[..]), md, gots);
            var d := RemovalOrder(r, appSymIndices);
            relas[..] == Removed(r, d)
            && shs[..] == ShrunkHeaders(old(shs[..]), sec.index, |d|)
            && (forall i :: 0 <= i < dyns.Length ==>
                  dyns[i] == ShrinkDynamic(old(dyns[i]), NamesSection(old(dyns[..]), DT_RELA, sec.offset),
                                           NamesSection(old(dyns[..]), DT_JMPREL, sec.offset), |d| * RELA_ENTRY_SIZE))
    ensures md'.surgeries == GotSurgeries(md.surgeries, old(relas[..]), gots, sec.offset)
    ensures md' == md.(surgeries := md'.surgeries,
                       relaSectionIndex := if NamesSection(old(dyns[..]), DT_RELA, sec.offset) then sec.index else md.relaSectionIndex)
  {
    ghost var r := Rewritten(relas[..], md, gots);
    ghost var shs0, dyns0 := shs[..], dyns[..];
    var surgeries := RewriteRelocations(relas, md, gots, sec.offset);
    var removed := RemoveAppJumpSlots(relas, appSymIndices);
    assert removed == |RemovalOrder(r, appSymIndices)|;
    assert shs[..] == shs0 && dyns[..] == dyns0;
    md' := ShrinkSection(shs, dyns, sec, removed, md.(surgeries := surgeries));
  }
}
