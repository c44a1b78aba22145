/** Which host symbols belong to the Roc namespace (`is_roc_symbol`,
    `is_roc_definition`, `is_roc_undefined`) and the map of host-exported
    addresses built from them (`collect_roc_definitions`). */
module RocSymbols {
  import opened Wrappers

  /** A symbol of the host executable as the object reader reports it; a name
      that cannot be read (not UTF-8) is `None`. */
  datatype HostSymbol = HostSymbol(name: Option<string>, address: nat, isDefinition: bool, isUndefined: bool)

  predicate HasPrefix(s: string, prefix: string)
  {
    |prefix| <= |s| && s[..|prefix|] == prefix
  }

  /** `trim_start_matches('_')`. */
  function TrimLeadingUnderscores(s: string): (r: string)
    ensures r == [] || r[0] != '_'
    ensures |r| <= |s| && r == s[|s| - |r|..]
    ensures forall i :: 0 <= i < |s| - |r| ==> s[i] == '_'
  {
    if s != [] && s[0] == '_' then TrimLeadingUnderscores(s[1..]) else s
  }

  /** `split('@').next()`: everything before the first `@`. */
  function BeforeAt(s: string): (r: string)
    ensures HasPrefix(s, r)
    ensures '@' !in r
    ensures |r| < |s| ==> s[|r|] == '@'
  {
    if s == [] || s[0] == '@' then [] else [s[0]] + BeforeAt(s[1..])
  }

  predicate IsRocName(name: string)
  {
    HasPrefix(TrimLeadingUnderscores(name), "roc_")
  }

  predicate IsRocSymbol(sym: HostSymbol)
  {
    sym.name.Some? && IsRocName(sym.name.value)
  }

  predicate IsRocDefinition(sym: HostSymbol)
  {
    sym.isDefinition && IsRocSymbol(sym)
  }

  predicate IsRocUndefined(sym: HostSymbol)
  {
    sym.isUndefined && IsRocSymbol(sym)
  }

  /** The name a Roc definition is recorded under: leading underscores and
      any `@version` suffix removed. */
  function NormalizedName(name: string): string
  {
    BeforeAt(TrimLeadingUnderscores(name))
  }

  /** The libc symbols that host-supplied Roc primitives also stand for,
      as (Roc name, libc name) pairs. */
  const LIBC_ALIASES: seq<(string, string)> := [
    ("roc_memcpy", "memcpy"),
    ("roc_memset", "memset"),
    ("roc_memmove", "memmove"),
    ("roc_mmap", "mmap"),
    ("roc_getppid", "getppid"),
    ("roc_shm_open", "shm_open")]

  /** The first pair of `table` whose Roc name is `name`. */
  function Lookup(table: seq<(string, string)>, name: string): (r: Option<string>)
    ensures r.Some? <==> exists i :: 0 <= i < |table| && table[i].0 == name
    ensures r.Some? ==> exists i :: 0 <= i < |table| && table[i] == (name, r.value)
  {
    if table == [] then None
    else if table[0].0 == name then Some(table[0].1)
    else Lookup(table[1..], name)
  }

  function LibcAlias(name: string): Option<string>
  {
    Lookup(LIBC_ALIASES, name)
  }

  /** The set of keys `sym` contributes to the map. */
  function KeysOf(sym: HostSymbol): set<string>
  {
    if !IsRocDefinition(sym) then {}
    else
      var name := NormalizedName(sym.name.value);
      match LibcAlias(name)
      case Some(alias) => {name, alias}
      case None => {name}
  }

  /** `sym` makes the map hold `key` (its own name or its libc alias). */
  predicate Registers(sym: HostSymbol, key: string)
  {
    key in KeysOf(sym)
  }

  /** One iteration of the loop: the alias first, then the name itself. */
  function Record(m: map<string, nat>, sym: HostSymbol): map<string, nat>
  {
    if !IsRocDefinition(sym) then m
    else
      var name := NormalizedName(sym.name.value);
      var withAlias: map<string, nat> := match LibcAlias(name)
        case Some(alias) => m[alias := sym.address]
        case None => m;
      withAlias[name := sym.address]
  }

  /** `collect_roc_definitions`: the symbols are visited in order, so a later
      definition of the same key replaces an earlier one. */
  function CollectRocDefinitions(syms: seq<HostSymbol>): map<string, nat>
  {
    if syms == [] then map[]
    else Record(CollectRocDefinitions(syms[..|syms| - 1]), syms[|syms| - 1])
  }

  lemma {:induction false} RecordKeys(m: map<string, nat>, sym: HostSymbol, k: string)
    ensures k in Record(m, sym) <==> k in m || Registers(sym, k)
    ensures Registers(sym, k) ==> Record(m, sym)[k] == sym.address
    ensures !Registers(sym, k) && k in m ==> Record(m, sym)[k] == m[k]
  {
  }

  /** The position of the last symbol of `syms` that registers `k`, or -1. */
  function LastRegistering(syms: seq<HostSymbol>, k: string): (r: int)
    ensures -1 <= r < |syms|
    ensures r >= 0 ==> Registers(syms[r], k)
    ensures forall j :: r < j < |syms| ==> !Registers(syms[j], k)
  {
    if syms == [] then -1
    else if Registers(syms[|syms| - 1], k) then |syms| - 1
    else
      var r := LastRegistering(syms[..|syms| - 1], k);
      assert forall j :: r < j < |syms| - 1 ==> syms[j] == syms[..|syms| - 1][j];
      r
  }

  /** A key is present exactly when some Roc definition registers it, and it
      holds the address of the last such definition. */
  lemma {:induction false} CollectedKeys(syms: seq<HostSymbol>, k: string)
    ensures k in CollectRocDefinitions(syms) <==> LastRegistering(syms, k) >= 0
    ensures k in CollectRocDefinitions(syms) ==>
              CollectRocDefinitions(syms)[k] == syms[LastRegistering(syms, k)].address
  {
    if syms != [] {
      var init, last := syms[..|syms| - 1], syms[|syms| - 1];
      CollectedKeys(init, k);
      RecordKeys(CollectRocDefinitions(init), last, k);
      if !Registers(last, k) && k in CollectRocDefinitions(init) {
        assert syms[LastRegistering(init, k)] == init[LastRegistering(init, k)];
      }
    }
  }

  lemma {:induction false} BeforeAtKeepsPrefix(s: string, prefix: string)
    requires HasPrefix(s, prefix) && '@' !in prefix
    ensures HasPrefix(BeforeAt(s), prefix)
  {
  }

  /** Every key recorded is either a Roc name with no leading underscore and
      no version suffix, or one of the six libc aliases. */
  lemma {:induction false} CollectedKeyShape(syms: seq<HostSymbol>, k: string)
    requires k in CollectRocDefinitions(syms)
    ensures (HasPrefix(k, "roc_") && '@' !in k)
            || exists i :: 0 <= i < |LIBC_ALIASES| && LIBC_ALIASES[i].1 == k
  {
    CollectedKeys(syms, k);
    var i := LastRegistering(syms, k);
    var name := syms[i].name.value;
    BeforeAtKeepsPrefix(TrimLeadingUnderscores(name), "roc_");
  }
}
