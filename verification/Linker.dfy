/**
  The linker's index of definitions (`wasmi/src/linker.rs`): names are interned to 32-bit symbols, and two
  symbols packed into one 64-bit key index an ordered map. To its user it is a map from pairs of strings.
*/
module Linkers {
  import opened Bits
  import opened Wrappers

  // ---------- import keys ----------

  const SYMBOLS: int := 0x1_0000_0000

  /** `ImportKey::new`: `(module << 32) | name` on 64 bits. */
  function PackKey(m: u32, n: u32): u64 {
    PackedValue(m, n);
    Or(Shl(64, m, 32), n)
  }

  function ModuleOf(key: u64): u32 {
    key as int / SYMBOLS
  }

  function NameOf(key: u64): u32 {
    key as int % SYMBOLS
  }

  lemma PackedValue(m: u32, n: u32)
    ensures Or(Shl(64, m, 32), n) == m as int * SYMBOLS + n as int
  {
    hide Or, Pow2;
    PowValues();
    assert Shl(64, m, 32) == m * Pow2(32) by { DivModUnique(m * Pow2(32), Pow2(64), 0, m * Pow2(32)); }
    OrCommutes(m * Pow2(32), n);
    OrDisjoint(n, m, 32);
  }

  /** Packing loses nothing: distinct pairs of symbols have distinct keys, and every key is a pair. */
  lemma PackUnpack(m: u32, n: u32)
    ensures ModuleOf(PackKey(m, n)) == m && NameOf(PackKey(m, n)) == n
  {
    hide Or, Shl;
    PackedValue(m, n);
    DivModUnique(PackKey(m, n), SYMBOLS, m, n);
  }

  lemma UnpackPack(key: u64)
    ensures PackKey(ModuleOf(key), NameOf(key)) == key
  {
    hide Or, Shl;
    PackedValue(ModuleOf(key), NameOf(key));
  }

  /** One comparison of keys compares modules first and names second. */
  lemma PackOrder(m1: u32, n1: u32, m2: u32, n2: u32)
    ensures PackKey(m1, n1) < PackKey(m2, n2) <==> m1 < m2 || (m1 == m2 && n1 < n2)
  {
    hide Or, Shl;
    PackedValue(m1, n1);
    PackedValue(m2, n2);
  }

  // ---------- the interner ----------

  /** The two indexes of the interner mirror each other. */
  ghost predicate Mirrored(strings: seq<string>, symbols: map<string, u32>) {
    && |strings| <= SYMBOLS
    && (forall i :: 0 <= i < |strings| ==> strings[i] in symbols && symbols[strings[i]] == i)
    && (forall s :: s in symbols ==> symbols[s] < |strings| && strings[symbols[s]] == s)
  }

  class StringInterner {
    var strings: seq<string>
    var symbols: map<string, u32>

    ghost predicate Valid()
      reads this
    {
      Mirrored(strings, symbols)
    }

    constructor ()
      ensures Valid() && strings == [] && symbols == map[]
    {
      strings, symbols := [], map[];
    }

    /** Interning a new string when every symbol is taken panics in the original. */
    method GetOrIntern(s: string) returns (symbol: u32)
      requires Valid() && (|strings| < SYMBOLS || s in symbols)
      modifies this
      ensures Valid()
      ensures s in symbols && symbols[s] == symbol
      ensures s in old(symbols) ==> strings == old(strings) && symbols == old(symbols)
      ensures s !in old(symbols) ==> strings == old(strings) + [s] && symbols == old(symbols)[s := |old(strings)|]
    {
      if s in symbols {
        symbol := symbols[s];
      } else {
        symbol := |strings|;
        symbols := symbols[s := symbol];
        strings := strings + [s];
      }
    }

    function Get(s: string): (symbol: Option<u32>)
      requires Valid()
      reads this
      ensures symbol.Some? <==> s in strings
      ensures symbol.Some? ==> symbol.value < |strings| && strings[symbol.value] == s
    {
      if s in symbols then Some(symbols[s]) else None
    }

    function Resolve(symbol: u32): Option<string>
      reads this
    {
      if symbol < |strings| then Some(strings[symbol]) else None
    }
  }

  // ---------- definitions as a plain map ----------

  type Path = (string, string)

  /** Both symbols of a key stand for strings. */
  predicate Interned(strings: seq<string>, key: u64) {
    ModuleOf(key) < |strings| && NameOf(key) < |strings|
  }

  function PathOf(strings: seq<string>, key: u64): Path
    requires Interned(strings, key)
  {
    (strings[ModuleOf(key)], strings[NameOf(key)])
  }

  predicate Known(symbols: map<string, u32>, p: Path) {
    p.0 in symbols && p.1 in symbols
  }

  function KeyOf(symbols: map<string, u32>, p: Path): u64
    requires Known(symbols, p)
  {
    PackKey(symbols[p.0], symbols[p.1])
  }

  /** Keys and paths of interned strings name each other. */
  lemma KeyOfPath(strings: seq<string>, symbols: map<string, u32>, key: u64)
    requires Mirrored(strings, symbols) && Interned(strings, key)
    ensures Known(symbols, PathOf(strings, key)) && KeyOf(symbols, PathOf(strings, key)) == key
  {
    hide PackKey, ModuleOf, NameOf;
    UnpackPack(key);
  }

  lemma PathOfKey(strings: seq<string>, symbols: map<string, u32>, p: Path)
    requires Mirrored(strings, symbols) && Known(symbols, p)
    ensures Interned(strings, KeyOf(symbols, p)) && PathOf(strings, KeyOf(symbols, p)) == p
  {
    hide PackKey, ModuleOf, NameOf;
    PackUnpack(symbols[p.0], symbols[p.1]);
  }

  /** The index and the table of definitions say the same. */
  ghost predicate Represents<T(!new)>(strings: seq<string>, symbols: map<string, u32>, definitions: map<u64, T>, table: map<Path, T>) {
    && (forall k :: k in definitions ==>
          Interned(strings, k) && PathOf(strings, k) in table && table[PathOf(strings, k)] == definitions[k])
    && (forall p :: p in table ==> Known(symbols, p) && KeyOf(symbols, p) in definitions)
  }

  /** A key reaches exactly the entry its path names. */
  lemma KeyIsPath<T(!new)>(strings: seq<string>, symbols: map<string, u32>, definitions: map<u64, T>, table: map<Path, T>, key: u64)
    requires Mirrored(strings, symbols) && Represents(strings, symbols, definitions, table) && Interned(strings, key)
    ensures key in definitions <==> PathOf(strings, key) in table
    ensures key in definitions ==> definitions[key] == table[PathOf(strings, key)]
  {
    hide KeyOf, PathOf, Interned, Mirrored;
    KeyOfPath(strings, symbols, key);
  }

  /** Interning one more string changes no definition. */
  lemma RepresentsMore<T(!new)>(strings: seq<string>, symbols: map<string, u32>, definitions: map<u64, T>, table: map<Path, T>, s: string)
    requires Mirrored(strings, symbols) && |strings| < SYMBOLS && s !in symbols
    requires Represents(strings, symbols, definitions, table)
    ensures Represents(strings + [s], symbols[s := |strings|], definitions, table)
  {
    hide PathOf, KeyOf, Interned, Known, Mirrored;
    forall k | k in definitions
      ensures Interned(strings + [s], k) && PathOf(strings + [s], k) == PathOf(strings, k)
    {
      MorePath(strings, s, k);
    }
    forall p | p in table
      ensures Known(symbols[s := |strings|], p) && KeyOf(symbols[s := |strings|], p) == KeyOf(symbols, p)
    {
      MoreKey(symbols, s, |strings|, p);
    }
  }

  lemma MorePath(strings: seq<string>, s: string, key: u64)
    requires Interned(strings, key)
    ensures Interned(strings + [s], key) && PathOf(strings + [s], key) == PathOf(strings, key)
  {
    hide ModuleOf, NameOf;
  }

  lemma MoreKey(symbols: map<string, u32>, s: string, symbol: u32, p: Path)
    requires s !in symbols && Known(symbols, p)
    ensures Known(symbols[s := symbol], p) && KeyOf(symbols[s := symbol], p) == KeyOf(symbols, p)
  {
    hide PackKey;
  }

  lemma RepresentsInsert<T(!new)>(strings: seq<string>, symbols: map<string, u32>, definitions: map<u64, T>, table: map<Path, T>, key: u64, item: T)
    requires Mirrored(strings, symbols) && Represents(strings, symbols, definitions, table) && Interned(strings, key)
    ensures Represents(strings, symbols, definitions[key := item], table[PathOf(strings, key) := item])
  {
    hide KeyOf, PathOf, Interned, Known, Mirrored;
    KeyOfPath(strings, symbols, key);
    var defs, path := definitions[key := item], PathOf(strings, key);
    var entries := table[path := item];
    forall k | k in defs
      ensures Interned(strings, k) && PathOf(strings, k) in entries && entries[PathOf(strings, k)] == defs[k]
    {
      if k != key { KeyOfPath(strings, symbols, k); }
    }
    forall p | p in entries
      ensures Known(symbols, p) && KeyOf(symbols, p) in defs
    {
      if p != path { assert p in table; }
    }
  }

  // ---------- iterating over the ordered map ----------

  /** The entries of one module, of the keys not in `rest`, as `BTreeMap` iteration lists them: by ascending name symbol. */
  ghost predicate ListsModule<T(!new)>(items: seq<(u32, T)>, definitions: map<u64, T>, m: u32, rest: set<u64>) {
    && (forall i, j :: 0 <= i < j < |items| ==> items[i].0 < items[j].0)
    && (forall i :: 0 <= i < |items| ==>
          PackKey(m, items[i].0) in definitions && definitions[PackKey(m, items[i].0)] == items[i].1)
    && (forall i, k :: 0 <= i < |items| && k in rest ==> PackKey(m, items[i].0) < k)
    && (forall k :: k in definitions && k !in rest && ModuleOf(k) == m ==> exists i :: 0 <= i < |items| && items[i].0 == NameOf(k))
  }

  lemma ListOneMore<T(!new)>(items: seq<(u32, T)>, definitions: map<u64, T>, m: u32, rest: set<u64>, key: u64)
    requires ListsModule(items, definitions, m, rest) && key in rest && key in definitions && ModuleOf(key) == m
    requires forall k :: k in rest ==> key <= k
    ensures ListsModule(items + [(NameOf(key), definitions[key])], definitions, m, rest - {key})
  {
    hide PackKey, ModuleOf, NameOf;
    UnpackPack(key);
    forall i | 0 <= i < |items|
      ensures items[i].0 < NameOf(key)
    {
      PackOrder(m, items[i].0, m, NameOf(key));
    }
    var after := items + [(NameOf(key), definitions[key])];
    assert after[|items|].0 == NameOf(key);
    forall k | k in definitions && k !in rest && ModuleOf(k) == m
      ensures exists i :: 0 <= i < |after| && after[i].0 == NameOf(k)
    {
      var i :| 0 <= i < |items| && items[i].0 == NameOf(k);
      assert after[i].0 == NameOf(k);
    }
  }

  lemma {:induction false} LeastExists(keys: set<u64>) returns (least: u64)
    requires keys != {}
    ensures least in keys && forall k :: k in keys ==> least <= k
    decreases |keys|
  {
    var k :| k in keys;
    least := k;
    if keys - {k} != {} {
      var rest := LeastExists(keys - {k});
      if rest < k { least := rest; }
    }
    forall j | j in keys
      ensures least <= j
    {
      if j != k { assert j in keys - {k}; }
    }
  }

  /** `definitions.iter().filter(…).map(…).collect()` */
  method CollectModule<T(!new)>(definitions: map<u64, T>, m: u32) returns (items: seq<(u32, T)>)
    ensures ListsModule(items, definitions, m, {})
  {
    hide PackKey, ModuleOf, NameOf;
    items := [];
    var rest := definitions.Keys;
    while rest != {}
      invariant rest <= definitions.Keys
      invariant ListsModule(items, definitions, m, rest)
      decreases |rest|
    {
      ghost var least := LeastExists(rest);
      var key :| key in rest && forall k :: k in rest ==> key <= k;
      if ModuleOf(key) == m {
        ListOneMore(items, definitions, m, rest, key);
        items := items + [(NameOf(key), definitions[key])];
      }
      rest := rest - {key};
    }
  }

  // ---------- aliasing, as a function of the table ----------

  /** The table once the names listed have been copied from module `m` to module `a`. */
  ghost predicate CopiedTo<T(!new)>(after: map<Path, T>, before: map<Path, T>, m: string, a: string, copied: string -> bool) {
    forall p ::
      && (p in after <==> p in before || (p.0 == a && (m, p.1) in before && copied(p.1)))
      && (p in after ==> after[p] == if p.0 == a && (m, p.1) in before && copied(p.1) then before[(m, p.1)] else before[p])
  }

  ghost function Below(symbols: map<string, u32>, bound: int): string -> bool {
    n => n in symbols && symbols[n] < bound
  }

  /** The listed items are the entries of module `m`, by ascending name symbol. */
  ghost predicate ListsEntries<T(!new)>(items: seq<(u32, T)>, strings: seq<string>, symbols: map<string, u32>, table: map<Path, T>, m: string) {
    && (forall i, j :: 0 <= i < j < |items| ==> items[i].0 < items[j].0)
    && (forall i :: 0 <= i < |items| ==>
          items[i].0 < |strings| && (m, strings[items[i].0]) in table && table[(m, strings[items[i].0])] == items[i].1)
    && (forall n :: (m, n) in table ==> n in symbols && exists i :: 0 <= i < |items| && items[i].0 == symbols[n])
  }

  lemma ModuleIsEntries<T(!new)>(items: seq<(u32, T)>, strings: seq<string>, symbols: map<string, u32>, definitions: map<u64, T>,
                                 table: map<Path, T>, m: string)
    requires Mirrored(strings, symbols) && Represents(strings, symbols, definitions, table)
    requires m in symbols && ListsModule(items, definitions, symbols[m], {})
    ensures ListsEntries(items, strings, symbols, table, m)
  {
    hide PackKey, ModuleOf, NameOf, Represents, Mirrored, Known, KeyOf, Interned, PathOf;
    forall i | 0 <= i < |items|
      ensures items[i].0 < |strings| && (m, strings[items[i].0]) in table && table[(m, strings[items[i].0])] == items[i].1
    {
      KeyIsEntry(strings, symbols, definitions, table, m, items[i].0);
    }
    forall n | (m, n) in table
      ensures n in symbols && exists i :: 0 <= i < |items| && items[i].0 == symbols[n]
    {
      EntryHasKey(strings, symbols, definitions, table, m, n);
    }
  }

  lemma KeyIsEntry<T(!new)>(strings: seq<string>, symbols: map<string, u32>, definitions: map<u64, T>, table: map<Path, T>, m: string, n: u32)
    requires Mirrored(strings, symbols) && Represents(strings, symbols, definitions, table)
    requires m in symbols && PackKey(symbols[m], n) in definitions
    ensures n < |strings| && (m, strings[n]) in table && table[(m, strings[n])] == definitions[PackKey(symbols[m], n)]
  {
    hide PackKey, ModuleOf, NameOf;
    PackUnpack(symbols[m], n);
  }

  lemma EntryHasKey<T(!new)>(strings: seq<string>, symbols: map<string, u32>, definitions: map<u64, T>, table: map<Path, T>, m: string, n: string)
    requires Represents(strings, symbols, definitions, table) && (m, n) in table
    ensures m in symbols && n in symbols && PackKey(symbols[m], symbols[n]) in definitions
    ensures ModuleOf(PackKey(symbols[m], symbols[n])) == symbols[m] && NameOf(PackKey(symbols[m], symbols[n])) == symbols[n]
  {
    hide PackKey, ModuleOf, NameOf;
    assert Known(symbols, (m, n)) && KeyOf(symbols, (m, n)) in definitions;
    PackUnpack(symbols[m], symbols[n]);
  }

  ghost function Bound<T>(items: seq<(u32, T)>, i: nat): int {
    if i < |items| then items[i].0 else SYMBOLS
  }

  /** An entry lies below the bound of position `i` exactly if it is listed before it. */
  lemma EntryBelow<T(!new)>(items: seq<(u32, T)>, strings: seq<string>, symbols: map<string, u32>, table: map<Path, T>, m: string,
                            n: string, i: nat) returns (j: nat)
    requires Mirrored(strings, symbols) && ListsEntries(items, strings, symbols, table, m)
    requires (m, n) in table && i <= |items|
    ensures j < |items| && n in symbols && items[j].0 == symbols[n] && strings[items[j].0] == n
    ensures symbols[n] < Bound(items, i) <==> j < i
  {
    j :| 0 <= j < |items| && items[j].0 == symbols[n];
  }

  lemma CopyStart<T(!new)>(items: seq<(u32, T)>, strings: seq<string>, symbols: map<string, u32>, table: map<Path, T>, m: string, a: string)
    requires Mirrored(strings, symbols) && ListsEntries(items, strings, symbols, table, m)
    ensures CopiedTo(table, table, m, a, Below(symbols, Bound(items, 0)))
  {
  }

  lemma CopyStep<T(!new)>(items: seq<(u32, T)>, strings: seq<string>, symbols: map<string, u32>, before: map<Path, T>, now: map<Path, T>,
                          m: string, a: string, i: nat)
    requires Mirrored(strings, symbols) && ListsEntries(items, strings, symbols, before, m) && i < |items|
    requires items[i].0 < |strings|
    requires CopiedTo(now, before, m, a, Below(symbols, Bound(items, i)))
    ensures (a, strings[items[i].0]) in now <==> (a, strings[items[i].0]) in before
    ensures CopiedTo(now[(a, strings[items[i].0]) := items[i].1], before, m, a, Below(symbols, Bound(items, i + 1)))
  {
    var name := strings[items[i].0];
    assert (m, name) in before && before[(m, name)] == items[i].1;
    var j := EntryBelow(items, strings, symbols, before, m, name, i);
    assert !Below(symbols, Bound(items, i))(name) && Below(symbols, Bound(items, i + 1))(name);
    hide Mirrored, ListsEntries, Bound;
    forall n | (m, n) in before
      ensures Below(symbols, Bound(items, i + 1))(n) <==> n == name || Below(symbols, Bound(items, i))(n)
    {
      var j := EntryBelow(items, strings, symbols, before, m, n, i);
      var k := EntryBelow(items, strings, symbols, before, m, n, i + 1);
    }
  }

  lemma CopyEnd<T(!new)>(items: seq<(u32, T)>, strings: seq<string>, symbols: map<string, u32>, before: map<Path, T>, now: map<Path, T>,
                         m: string, a: string)
    requires Mirrored(strings, symbols) && ListsEntries(items, strings, symbols, before, m)
    requires CopiedTo(now, before, m, a, Below(symbols, Bound(items, |items|)))
    ensures CopiedTo(now, before, m, a, n => true)
  {
  }

  datatype DuplicateDefinition = DuplicateDefinition(moduleName: string, name: string)

  class LinkerInner<T(!new)> {
    const interner: StringInterner
    var definitions: map<u64, T>
    var allowShadowing: bool
    /** The definitions as a user of the linker sees them. */
    ghost var table: map<Path, T>

    ghost predicate Valid()
      reads this, interner
    {
      interner.Valid() && Represents(interner.strings, interner.symbols, definitions, table)
    }

    constructor ()
      ensures Valid() && table == map[] && !allowShadowing && fresh(interner)
    {
      interner := new StringInterner();
      definitions, allowShadowing, table := map[], false, map[];
    }

    method AllowShadowing(allow: bool)
      requires Valid()
      modifies this`allowShadowing
      ensures Valid() && allowShadowing == allow
    {
      allowShadowing := allow;
    }

    /** There are symbols left for those of the two strings that are new; otherwise the original panics. */
    ghost predicate HasRoom(s: string, t: string)
      reads this, interner
    {
      |interner.strings| + |{s, t} - interner.symbols.Keys| <= SYMBOLS
    }

    /** Interning through the linker keeps every definition. */
    method Intern(s: string) returns (symbol: u32)
      requires Valid() && (|interner.strings| < SYMBOLS || s in interner.symbols)
      modifies interner
      ensures Valid()
      ensures s in interner.symbols && interner.symbols[s] == symbol
      ensures interner.symbols.Keys == old(interner.symbols.Keys) + {s}
      ensures |interner.strings| == |old(interner.strings)| + if s in old(interner.symbols) then 0 else 1
      ensures forall t :: t in old(interner.symbols) ==> t in interner.symbols && interner.symbols[t] == old(interner.symbols[t])
    {
      hide Represents;
      if s !in interner.symbols {
        RepresentsMore(interner.strings, interner.symbols, definitions, table, s);
      }
      symbol := interner.GetOrIntern(s);
    }

    method InternBoth(s: string, t: string) returns (a: u32, b: u32)
      requires Valid() && HasRoom(s, t)
      modifies interner
      ensures Valid()
      ensures s in interner.symbols && interner.symbols[s] == a
      ensures t in interner.symbols && interner.symbols[t] == b
    {
      hide Represents, Mirrored;
      ghost var missing := {s, t} - interner.symbols.Keys;
      if s !in interner.symbols { assert s in missing; }
      if t !in interner.symbols { assert t in missing; }
      if s !in interner.symbols && t !in interner.symbols && s != t { assert missing == {s, t}; }
      a := Intern(s);
      b := Intern(t);
    }

    method NewImportKey(moduleName: string, name: string) returns (key: u64)
      requires Valid() && HasRoom(moduleName, name)
      modifies interner
      ensures Valid()
      ensures Interned(interner.strings, key) && PathOf(interner.strings, key) == (moduleName, name)
    {
      hide Represents, PackKey, Interned, PathOf, HasRoom;
      var m, n := InternBoth(moduleName, name);
      key := PackKey(m, n);
      PathOfKey(interner.strings, interner.symbols, (moduleName, name));
    }

    function GetImportKey(moduleName: string, name: string): (key: Option<u64>)
      requires Valid()
      reads this, interner
      ensures key.Some? <==> moduleName in interner.symbols && name in interner.symbols
      ensures key.Some? ==> key.value == KeyOf(interner.symbols, (moduleName, name))
    {
      match interner.Get(moduleName)
      case None => None
      case Some(m) =>
        match interner.Get(name)
        case None => None
        case Some(n) => Some(PackKey(m, n))
    }

    /** A definition is found exactly if the table has it under the pair of names. */
    method GetDefinition(moduleName: string, name: string) returns (r: Option<T>)
      requires Valid()
      ensures r == if (moduleName, name) in table then Some(table[(moduleName, name)]) else None
    {
      hide PackKey, PathOf, Interned, Mirrored;
      var key := GetImportKey(moduleName, name);
      var path := (moduleName, name);
      if key.Some? {
        PathOfKey(interner.strings, interner.symbols, path);
        KeyIsPath(interner.strings, interner.symbols, definitions, table, key.value);
      }
      r := if key.Some? && key.value in definitions then Some(definitions[key.value]) else None;
    }

    /** A rejected insert changes nothing; an accepted one sets exactly its own entry. */
    method Insert(key: u64, item: T) returns (r: Result<(), DuplicateDefinition>)
      requires Valid() && Interned(interner.strings, key)
      modifies this`definitions, this`table
      ensures Valid()
      ensures var path := PathOf(interner.strings, key);
        if path in old(table) && !allowShadowing
        then r == Err(DuplicateDefinition(path.0, path.1)) && table == old(table)
        else r == Ok(()) && table == old(table)[path := item]
    {
      hide PackKey, ModuleOf, NameOf, Represents, Mirrored;
      ghost var path := PathOf(interner.strings, key);
      KeyIsPath(interner.strings, interner.symbols, definitions, table, key);
      if key in definitions && !allowShadowing {
        var m, n := interner.Resolve(ModuleOf(key)), interner.Resolve(NameOf(key));
        return Err(DuplicateDefinition(m.value, n.value));
      }
      RepresentsInsert(interner.strings, interner.symbols, definitions, table, key, item);
      definitions := definitions[key := item];
      table := table[path := item];
      r := Ok(());
    }

    /** `Linker::define`, `func_new` and `func_wrap`. */
    method Define(moduleName: string, name: string, item: T) returns (r: Result<(), DuplicateDefinition>)
      requires Valid() && HasRoom(moduleName, name)
      modifies this`definitions, this`table, interner
      ensures Valid()
      ensures if (moduleName, name) in old(table) && !allowShadowing
        then r == Err(DuplicateDefinition(moduleName, name)) && table == old(table)
        else r == Ok(()) && table == old(table)[(moduleName, name) := item]
    {
      hide Represents, PathOf, Interned, HasRoom;
      var key := NewImportKey(moduleName, name);
      r := Insert(key, item);
    }

    /**
      Success copies every entry of the module and nothing else. Without shadowing it fails exactly if some name
      is defined in both modules; then the names interned before the first such name have been copied already.
    */
    method AliasModule(moduleName: string, asModule: string) returns (r: Result<(), DuplicateDefinition>)
      requires Valid() && HasRoom(moduleName, asModule)
      modifies this`definitions, this`table, interner
      ensures Valid()
      ensures r.Err? <==> !allowShadowing && exists n :: (moduleName, n) in old(table) && (asModule, n) in old(table)
      ensures r.Ok? ==> CopiedTo(table, old(table), moduleName, asModule, n => true)
      ensures r.Err? ==>
        var c := r.error.name;
        && r.error.moduleName == asModule && (moduleName, c) in old(table) && (asModule, c) in old(table)
        && c in interner.symbols
        && (forall n :: (moduleName, n) in old(table) ==> n in interner.symbols)
        && (forall n :: (moduleName, n) in old(table) && (asModule, n) in old(table) ==> interner.symbols[c] <= interner.symbols[n])
        && CopiedTo(table, old(table), moduleName, asModule, Below(interner.symbols, interner.symbols[c]))
    {
      hide PackKey, ModuleOf, NameOf, Represents, Mirrored, ListsModule, ListsEntries, CopiedTo, Bound, HasRoom;
      ghost var before := table;
      var m, a := InternBoth(moduleName, asModule);
      var items := CollectModule(definitions, m);
      ghost var strings, symbols := interner.strings, interner.symbols;
      ModuleIsEntries(items, strings, symbols, definitions, before, moduleName);
      CopyStart(items, strings, symbols, before, moduleName, asModule);
      for i := 0 to |items|
        invariant Valid() && interner.strings == strings && interner.symbols == symbols
        invariant CopiedTo(table, before, moduleName, asModule, Below(symbols, Bound(items, i)))
        invariant !allowShadowing ==> forall j :: 0 <= j < i ==> items[j].0 < |strings| && (asModule, strings[items[j].0]) !in before
      {
        AliasKey(items, strings, symbols, before, moduleName, asModule, i);
        CopyStep(items, strings, symbols, before, table, moduleName, asModule, i);
        r := Insert(PackKey(a, items[i].0), items[i].1);
        if r.Err? {
          FirstConflict(items, strings, symbols, before, moduleName, asModule, i);
          return;
        }
      }
      CopyEnd(items, strings, symbols, before, table, moduleName, asModule);
      if !allowShadowing { NoConflict(items, strings, symbols, before, moduleName, asModule); }
      r := Ok(());
    }
  }

  lemma AliasKey<T(!new)>(items: seq<(u32, T)>, strings: seq<string>, symbols: map<string, u32>, before: map<Path, T>,
                          m: string, a: string, i: nat)
    requires Mirrored(strings, symbols) && ListsEntries(items, strings, symbols, before, m) && i < |items| && a in symbols
    ensures items[i].0 < |strings| && (m, strings[items[i].0]) in before
    ensures Interned(strings, PackKey(symbols[a], items[i].0))
    ensures PathOf(strings, PackKey(symbols[a], items[i].0)) == (a, strings[items[i].0])
    ensures Bound(items, i) == symbols[strings[items[i].0]] && strings[items[i].0] in symbols
  {
    hide PackKey, ModuleOf, NameOf;
    PackUnpack(symbols[a], items[i].0);
  }

  lemma FirstConflict<T(!new)>(items: seq<(u32, T)>, strings: seq<string>, symbols: map<string, u32>, before: map<Path, T>,
                               m: string, a: string, i: nat)
    requires Mirrored(strings, symbols) && ListsEntries(items, strings, symbols, before, m) && i < |items|
    requires forall j :: 0 <= j < i ==> items[j].0 < |strings| && (a, strings[items[j].0]) !in before
    ensures forall n :: (m, n) in before ==> n in symbols
    ensures forall n :: (m, n) in before && (a, n) in before ==> Bound(items, i) <= symbols[n]
  {
  }

  lemma NoConflict<T(!new)>(items: seq<(u32, T)>, strings: seq<string>, symbols: map<string, u32>, before: map<Path, T>, m: string, a: string)
    requires Mirrored(strings, symbols) && ListsEntries(items, strings, symbols, before, m)
    requires forall j :: 0 <= j < |items| ==> items[j].0 < |strings| && (a, strings[items[j].0]) !in before
    ensures !exists n :: (m, n) in before && (a, n) in before
  {
  }
}
