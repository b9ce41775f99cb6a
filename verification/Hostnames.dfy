/** Hostname normalization across the sources of a composite inventory
  (app/services/composite_inventory.py).

  Case folding is a parameter: nothing below depends on what it does. */
module Hostnames {
  import opened Options
  import opened Values
  import opened Inventories
  import Merge

  datatype Mode = NormalizeNone | NormalizeShort | NormalizeFqdn

  type Fold = string -> string

  /** One occurrence of a hostname: the index of its source and the name. */
  type Row = (nat, string)

  predicate Dotted(host: string) { '.' in host }

  /** The text before the first dot. */
  function FirstLabel(host: string): string {
    if host == "" || host[0] == '.' then "" else [host[0]] + FirstLabel(host[1..])
  }

  /** The key under which a short name and its FQDNs meet. */
  function ShortKey(host: string, fold: Fold): string {
    if Dotted(host) then fold(FirstLabel(host)) else fold(host)
  }

  // ----- What the alias map is -------------------------------------------------------------

  ghost function Rows(sources: seq<Inventory>): set<Row> {
    set i, h | 0 <= i < |sources| && h in Hosts(sources[i]) :: (i as nat, h)
  }

  ghost predicate IsShort(row: Row, key: string, rows: set<Row>, fold: Fold) {
    row in rows && !Dotted(row.1) && ShortKey(row.1, fold) == key
  }

  ghost predicate IsFqdn(row: Row, key: string, rows: set<Row>, fold: Fold) {
    row in rows && Dotted(row.1) && ShortKey(row.1, fold) == key
  }

  /** A short name and one single FQDN share the key, and no source has both forms. */
  ghost predicate Matched(rows: set<Row>, key: string, fold: Fold) {
    && (exists s :: IsShort(s, key, rows, fold))
    && (exists name :: OneFqdn(rows, key, name, fold))
    && (forall s, f :: IsShort(s, key, rows, fold) && IsFqdn(f, key, rows, fold) ==> s.0 != f.0)
  }

  ghost predicate OneFqdn(rows: set<Row>, key: string, name: string, fold: Fold) {
    && (exists f :: IsFqdn(f, key, rows, fold))
    && (forall f :: IsFqdn(f, key, rows, fold) ==> fold(f.1) == name)
  }

  /** The maps `_normalization_map` may return. Names that differ in letter case only give it a
    choice of canonical name; everything else is determined. */
  ghost predicate IsAliasMap(rows: set<Row>, mode: Mode, fold: Fold, aliases: map<string, string>) {
    if mode.NormalizeNone? then aliases == map[] else
    && (forall h :: h in aliases <==> Occurs(rows, h) && Matched(rows, ShortKey(h, fold), fold))
    && AliasesAreCanonical(rows, mode, fold, aliases)
  }

  ghost predicate Occurs(rows: set<Row>, host: string) {
    exists row :: row in rows && row.1 == host
  }

  /** Hosts with the same key share one canonical name, which is one of their own names. */
  ghost predicate AliasesAreCanonical(rows: set<Row>, mode: Mode, fold: Fold, aliases: map<string, string>) {
    && (forall h :: h in aliases ==> IsCanonical(rows, mode, fold, aliases[h], ShortKey(h, fold)))
    && (forall g, h :: g in aliases && h in aliases && ShortKey(g, fold) == ShortKey(h, fold) ==>
      aliases[g] == aliases[h])
  }

  ghost predicate IsCanonical(rows: set<Row>, mode: Mode, fold: Fold, host: string, key: string) {
    exists row: Row ::
      && row.1 == host
      && if mode.NormalizeShort? then IsShort(row, key, rows, fold) else IsFqdn(row, key, rows, fold)
  }

  // ----- Renaming ----------------------------------------------------------------------------

  function Renamed(host: string, aliases: map<string, string>): string {
    if host in aliases then aliases[host] else host
  }

  function RenamedItem(item: Value, aliases: map<string, string>): Value {
    if item.Leaf? && item.scalar.Text? then Leaf(Text(Renamed(item.scalar.s, aliases))) else item
  }

  function RenamedItems(items: seq<Value>, aliases: map<string, string>): seq<Value> {
    Merge.AppendUnique([], seq(|items|, n requires 0 <= n < |items| => RenamedItem(items[n], aliases)))
  }

  function RenamedGroup(group: Value, aliases: map<string, string>): Value {
    if group.Object? && "hosts" in group.fields && group.fields["hosts"].Array? then
      Object(group.fields["hosts" := Array(RenamedItems(group.fields["hosts"].items, aliases))])
    else group
  }

  predicate Collides(hosts: set<string>, aliases: map<string, string>) {
    exists g, h :: g in hosts && h in hosts && g != h && Renamed(g, aliases) == Renamed(h, aliases)
  }

  function RenamedHostvars(hostvars: map<string, Value>, aliases: map<string, string>): map<string, Value>
    requires !Collides(hostvars.Keys, aliases)
  {
    map h | h in hostvars :: Renamed(h, aliases) := hostvars[h]
  }

  function RenamedGroups(groups: map<string, Value>, aliases: map<string, string>): map<string, Value> {
    map g | g in groups :: RenamedGroup(groups[g], aliases)
  }

  function RenamedSet(hosts: set<string>, aliases: map<string, string>): set<string> {
    set h | h in hosts :: Renamed(h, aliases)
  }

  /** `_rename_inventory_hosts`; None stands for the collision error. */
  function RenamedInventory(inv: Inventory, aliases: map<string, string>): Option<Inventory> {
    if aliases == map[] then Some(inv)
    else if Collides(inv.hostvars.Keys, aliases) then None
    else Some(Inventory(RenamedHostvars(inv.hostvars, aliases), RenamedGroups(inv.groups, aliases)))
  }

  function DomainAliases(inv: Inventory, domain: string): map<string, string> {
    map h | h in Hosts(inv) && !Dotted(h) :: h + "." + domain
  }

  /** `append_domain_to_inventory` with an already validated domain, "" for none. */
  function WithDomain(inv: Inventory, domain: string): Option<Inventory> {
    if domain == "" then Some(inv) else RenamedInventory(inv, DomainAliases(inv, domain))
  }

  /** One source of `normalize_source_inventories`. */
  function NormalizedSource(inv: Inventory, aliases: map<string, string>, domain: string): Option<Inventory> {
    match RenamedInventory(inv, aliases) case None => None case Some(r) => WithDomain(r, domain)
  }

  /** All sources, or None as soon as one of them has a collision. */
  function NormalizedSources(sources: seq<Inventory>, aliases: map<string, string>, domain: string)
    : Option<seq<Inventory>>
  {
    if forall i :: 0 <= i < |sources| ==> NormalizedSource(sources[i], aliases, domain).Some? then
      Some(seq(|sources|, i requires 0 <= i < |sources| => NormalizedSource(sources[i], aliases, domain).value))
    else None
  }

  // ----- The loops ---------------------------------------------------------------------------

  /** `short_occurrences` after the given rows. */
  ghost predicate IndexesShort(index: map<string, set<Row>>, rows: set<Row>, fold: Fold) {
    && (forall k :: k in index ==> index[k] != {})
    && (forall k, row :: k in index && row in index[k] ==> IsShort(row, k, rows, fold))
    && (forall k, row :: IsShort(row, k, rows, fold) ==> k in index && row in index[k])
  }

  /** `fqdn_occurrences` after the given rows. */
  ghost predicate IndexesFqdn(index: map<string, map<string, set<Row>>>, rows: set<Row>, fold: Fold) {
    && (forall k :: k in index ==> index[k] != map[] && forall name :: name in index[k] ==> index[k][name] != {})
    && (forall k, name, row :: k in index && name in index[k] && row in index[k][name] ==>
          IsFqdn(row, k, rows, fold) && fold(row.1) == name)
    && (forall k, row :: IsFqdn(row, k, rows, fold) ==>
          k in index && fold(row.1) in index[k] && row in index[k][fold(row.1)])
  }

  method IndexRows(sources: seq<Inventory>, fold: Fold)
    returns (shorts: map<string, set<Row>>, fqdns: map<string, map<string, set<Row>>>)
    ensures IndexesShort(shorts, Rows(sources), fold) && IndexesFqdn(fqdns, Rows(sources), fold)
  {
    shorts, fqdns := map[], map[];
    ghost var rows: set<Row> := {};
    for n := 0 to |sources|
      invariant rows == Rows(sources[..n])
      invariant IndexesShort(shorts, rows, fold) && IndexesFqdn(fqdns, rows, fold)
    {
      shorts, fqdns := IndexHosts(shorts, fqdns, n, Hosts(sources[n]), rows, fold);
      rows := rows + RowsOf(n, Hosts(sources[n]));
      RowsMore(sources, n);
    }
    assert sources[..|sources|] == sources;
  }

  lemma RowsMore(sources: seq<Inventory>, n: nat)
    requires n < |sources|
    ensures Rows(sources[..n + 1]) == Rows(sources[..n]) + RowsOf(n, Hosts(sources[n]))
  {
  }

  ghost function RowsOf(n: nat, hosts: set<string>): set<Row> {
    set h | h in hosts :: (n, h)
  }

  method IndexHosts(shorts0: map<string, set<Row>>, fqdns0: map<string, map<string, set<Row>>>, n: nat,
                    hosts: set<string>, ghost rows0: set<Row>, fold: Fold)
    returns (shorts: map<string, set<Row>>, fqdns: map<string, map<string, set<Row>>>)
    requires IndexesShort(shorts0, rows0, fold) && IndexesFqdn(fqdns0, rows0, fold)
    ensures IndexesShort(shorts, rows0 + RowsOf(n, hosts), fold) && IndexesFqdn(fqdns, rows0 + RowsOf(n, hosts), fold)
  {
    shorts, fqdns := shorts0, fqdns0;
    ghost var rows := rows0;
    var todo := hosts;
    while todo != {}
      invariant todo <= hosts && rows == rows0 + RowsOf(n, hosts - todo)
      invariant IndexesShort(shorts, rows, fold) && IndexesFqdn(fqdns, rows, fold)
    {
      var host :| host in todo;
      shorts, fqdns := IndexHost(shorts, fqdns, (n, host), rows, fold);
      assert RowsOf(n, hosts - (todo - {host})) == RowsOf(n, hosts - todo) + {(n, host)};
      todo, rows := todo - {host}, rows + {(n, host)};
    }
    assert hosts - todo == hosts;
  }

  method IndexHost(shorts0: map<string, set<Row>>, fqdns0: map<string, map<string, set<Row>>>, row: Row,
                   ghost rows: set<Row>, fold: Fold)
    returns (shorts: map<string, set<Row>>, fqdns: map<string, map<string, set<Row>>>)
    requires IndexesShort(shorts0, rows, fold) && IndexesFqdn(fqdns0, rows, fold)
    ensures IndexesShort(shorts, rows + {row}, fold) && IndexesFqdn(fqdns, rows + {row}, fold)
  {
    var host := row.1;
    shorts, fqdns := shorts0, fqdns0;
    if !Dotted(host) {
      shorts := AddShort(shorts0, fold(host), row, rows, fold);
      AddShortKeepsFqdns(fqdns0, row, rows, fold);
    } else {
      fqdns := AddFqdn(fqdns0, fold(FirstLabel(host)), fold(host), row, rows, fold);
      AddFqdnKeepsShorts(shorts0, row, rows, fold);
    }
  }

  method AddShort(index: map<string, set<Row>>, key: string, row: Row, ghost rows: set<Row>, fold: Fold)
    returns (result: map<string, set<Row>>)
    requires IndexesShort(index, rows, fold) && !Dotted(row.1) && key == fold(row.1)
    ensures IndexesShort(result, rows + {row}, fold)
  {
    result := index[key := (if key in index then index[key] else {}) + {row}];
    forall k, r ensures IsShort(r, k, rows + {row}, fold) <==> IsShort(r, k, rows, fold) || (r == row && k == key) {
    }
  }

  lemma AddShortKeepsFqdns(index: map<string, map<string, set<Row>>>, row: Row, rows: set<Row>, fold: Fold)
    requires IndexesFqdn(index, rows, fold) && !Dotted(row.1)
    ensures IndexesFqdn(index, rows + {row}, fold)
  {
    forall k, r ensures IsFqdn(r, k, rows + {row}, fold) <==> IsFqdn(r, k, rows, fold) {
    }
  }

  method AddFqdn(index: map<string, map<string, set<Row>>>, key: string, name: string, row: Row,
                 ghost rows: set<Row>, fold: Fold)
    returns (result: map<string, map<string, set<Row>>>)
    requires IndexesFqdn(index, rows, fold) && Dotted(row.1) && key == ShortKey(row.1, fold) && name == fold(row.1)
    ensures IndexesFqdn(result, rows + {row}, fold)
  {
    var byName := if key in index then index[key] else map[];
    var named := (if name in byName then byName[name] else {}) + {row};
    result := index[key := byName[name := named]];
    forall k, r ensures IsFqdn(r, k, rows + {row}, fold) <==> IsFqdn(r, k, rows, fold) || (r == row && k == key) {
    }
    assert name in result[key];
  }

  lemma AddFqdnKeepsShorts(index: map<string, set<Row>>, row: Row, rows: set<Row>, fold: Fold)
    requires IndexesShort(index, rows, fold) && Dotted(row.1)
    ensures IndexesShort(index, rows + {row}, fold)
  {
    forall k, r ensures IsShort(r, k, rows + {row}, fold) <==> IsShort(r, k, rows, fold) {
    }
  }

  /** One iteration of the loop over `short_occurrences`: the rows to map and their canonical
    name, or None when the entry does not match. */
  method MatchEntry(mode: Mode, shortRows: set<Row>, byName: map<string, set<Row>>,
                    ghost rows: set<Row>, ghost key: string, ghost fold: Fold)
    returns (r: Option<(set<Row>, string)>)
    requires !mode.NormalizeNone? && shortRows != {}
    requires forall row :: row in shortRows <==> IsShort(row, key, rows, fold)
    requires forall name :: name in byName ==> byName[name] != {}
    requires forall name, row :: name in byName && row in byName[name] ==>
      IsFqdn(row, key, rows, fold) && fold(row.1) == name
    requires forall row :: IsFqdn(row, key, rows, fold) ==> fold(row.1) in byName && row in byName[fold(row.1)]
    ensures r.Some? <==> Matched(rows, key, fold)
    ensures r.Some? ==> forall row :: row in r.value.0 <==>
      IsShort(row, key, rows, fold) || IsFqdn(row, key, rows, fold)
    ensures r.Some? ==> IsCanonical(rows, mode, fold, r.value.1, key)
  {
    SingletonKeys(byName);
    OneEntryIsOneFqdn(byName, rows, key, fold);
    if |byName| != 1 {
      return None;
    }
    var name :| name in byName;
    var fqdnRows := byName[name];
    var shortSources := set s | s in shortRows :: s.0;
    var fqdnSources := set f | f in fqdnRows :: f.0;
    if shortSources * fqdnSources != {} {
      ghost var i :| i in shortSources * fqdnSources;
      ghost var s :| s in shortRows && s.0 == i;
      ghost var f :| f in fqdnRows && f.0 == i;
      assert IsShort(s, key, rows, fold) && IsFqdn(f, key, rows, fold);
      return None;
    }
    forall s, f | IsShort(s, key, rows, fold) && IsFqdn(f, key, rows, fold) ensures s.0 != f.0 {
      assert s.0 in shortSources && f.0 in fqdnSources;
      assert s.0 !in shortSources * fqdnSources;
    }
    var canonical: Row :| canonical in (if mode.NormalizeShort? then shortRows else fqdnRows);
    return Some((shortRows + fqdnRows, canonical.1));
  }

  lemma SingletonKeys<T>(m: map<string, T>)
    ensures |m| == 1 <==> m != map[] && forall a, b :: a in m && b in m ==> a == b
  {
    if m != map[] {
      var a :| a in m;
      var rest := m.Keys - {a};
      assert |m.Keys| == |rest| + 1;
      if rest != {} {
        var b :| b in rest;
        assert b in m && a != b;
      }
    }
  }

  lemma OneEntryIsOneFqdn(byName: map<string, set<Row>>, rows: set<Row>, key: string, fold: Fold)
    requires forall name :: name in byName ==> byName[name] != {}
    requires forall name, row :: name in byName && row in byName[name] ==>
      IsFqdn(row, key, rows, fold) && fold(row.1) == name
    requires forall row :: IsFqdn(row, key, rows, fold) ==> fold(row.1) in byName && row in byName[fold(row.1)]
    ensures (exists name :: OneFqdn(rows, key, name, fold)) <==>
      byName != map[] && forall a, b :: a in byName && b in byName ==> a == b
  {
    if name :| OneFqdn(rows, key, name, fold) {
      var f :| IsFqdn(f, key, rows, fold);
      assert fold(f.1) in byName;
      forall a | a in byName ensures a == name {
        var row :| row in byName[a];
        assert IsFqdn(row, key, rows, fold);
      }
    }
    if byName != map[] && forall a, b :: a in byName && b in byName ==> a == b {
      var name :| name in byName;
      var row :| row in byName[name];
      assert IsFqdn(row, key, rows, fold);
      assert OneFqdn(rows, key, name, fold);
    }
  }

  /** IsAliasMap, for the matched keys already handled. */
  ghost predicate AliasesFor(rows: set<Row>, mode: Mode, fold: Fold, aliases: map<string, string>, keys: set<string>) {
    && (forall h :: h in aliases <==> Occurs(rows, h) && ShortKey(h, fold) in keys)
    && AliasesAreCanonical(rows, mode, fold, aliases)
  }

  lemma AliasesGrow(rows: set<Row>, mode: Mode, fold: Fold, aliases: map<string, string>, keys: set<string>,
                    key: string, names: set<string>, canonical: string)
    requires AliasesFor(rows, mode, fold, aliases, keys) && key !in keys
    requires IsCanonical(rows, mode, fold, canonical, key)
    requires forall h :: h in names <==> Occurs(rows, h) && ShortKey(h, fold) == key
    ensures AliasesFor(rows, mode, fold, aliases + map h | h in names :: canonical, keys + {key})
  {
    var result := aliases + map h | h in names :: canonical;
    forall h | h in result
      ensures if ShortKey(h, fold) == key then result[h] == canonical else h in aliases && result[h] == aliases[h]
    {
      assert h in names || h in aliases;
    }
  }

  ghost predicate MatchedAmong(rows: set<Row>, fold: Fold, done: set<string>, matched: set<string>) {
    matched <= done && forall k :: k in done ==> (k in matched <==> Matched(rows, k, fold))
  }

  method NormalizationMap(sources: seq<Inventory>, mode: Mode, fold: Fold) returns (aliases: map<string, string>)
    ensures IsAliasMap(Rows(sources), mode, fold, aliases)
  {
    if mode.NormalizeNone? {
      return map[];
    }
    ghost var rows := Rows(sources);
    ghost var matched;
    var shorts, fqdns := IndexRows(sources, fold);
    aliases, matched := MatchKeys(mode, shorts, fqdns, rows, fold);
    MatchedKeysAreIndexed(rows, fold, shorts);
    AliasMapOfAllKeys(rows, mode, fold, aliases, shorts.Keys, matched);
  }

  lemma AliasMapOfAllKeys(rows: set<Row>, mode: Mode, fold: Fold, aliases: map<string, string>, keys: set<string>,
                          matched: set<string>)
    requires !mode.NormalizeNone? && AliasesFor(rows, mode, fold, aliases, matched)
    requires MatchedAmong(rows, fold, keys, matched)
    requires forall k :: Matched(rows, k, fold) ==> k in keys
    ensures IsAliasMap(rows, mode, fold, aliases)
  {
    forall h ensures h in aliases <==> Occurs(rows, h) && Matched(rows, ShortKey(h, fold), fold) {
      var key := ShortKey(h, fold);
      assert key in keys ==> (key in matched <==> Matched(rows, key, fold));
    }
  }

  method MatchKeys(mode: Mode, shorts: map<string, set<Row>>, fqdns: map<string, map<string, set<Row>>>,
                   ghost rows: set<Row>, ghost fold: Fold)
    returns (aliases: map<string, string>, ghost matched: set<string>)
    requires !mode.NormalizeNone? && IndexesShort(shorts, rows, fold) && IndexesFqdn(fqdns, rows, fold)
    ensures AliasesFor(rows, mode, fold, aliases, matched) && MatchedAmong(rows, fold, shorts.Keys, matched)
  {
    aliases, matched := map[], {};
    var todo := shorts.Keys;
    while todo != {}
      invariant todo <= shorts.Keys
      invariant MatchedAmong(rows, fold, shorts.Keys - todo, matched)
      invariant AliasesFor(rows, mode, fold, aliases, matched)
    {
      var key :| key in todo;
      var r := MatchKey(mode, shorts, fqdns, rows, key, fold);
      MatchedGrows(rows, fold, shorts.Keys - todo, matched, key);
      assert shorts.Keys - (todo - {key}) == (shorts.Keys - todo) + {key};
      todo := todo - {key};
      if r.Some? {
        AliasesGrow(rows, mode, fold, aliases, matched, key, r.value.0, r.value.1);
        aliases, matched := aliases + map h | h in r.value.0 :: r.value.1, matched + {key};
      }
    }
    assert shorts.Keys - todo == shorts.Keys;
  }

  lemma MatchedGrows(rows: set<Row>, fold: Fold, done: set<string>, matched: set<string>, key: string)
    requires MatchedAmong(rows, fold, done, matched) && key !in done
    ensures MatchedAmong(rows, fold, done + {key}, if Matched(rows, key, fold) then matched + {key} else matched)
  {
  }

  lemma MatchedKeysAreIndexed(rows: set<Row>, fold: Fold, shorts: map<string, set<Row>>)
    requires IndexesShort(shorts, rows, fold)
    ensures forall k :: Matched(rows, k, fold) ==> k in shorts
  {
  }

  method MatchKey(mode: Mode, shorts: map<string, set<Row>>, fqdns: map<string, map<string, set<Row>>>,
                  ghost rows: set<Row>, key: string, ghost fold: Fold)
    returns (r: Option<(set<string>, string)>)
    requires !mode.NormalizeNone? && key in shorts
    requires IndexesShort(shorts, rows, fold) && IndexesFqdn(fqdns, rows, fold)
    ensures r.Some? <==> Matched(rows, key, fold)
    ensures r.Some? ==> forall h :: h in r.value.0 <==> Occurs(rows, h) && ShortKey(h, fold) == key
    ensures r.Some? ==> IsCanonical(rows, mode, fold, r.value.1, key)
  {
    var entry := MatchEntry(mode, shorts[key], if key in fqdns then fqdns[key] else map[], rows, key, fold);
    if entry.None? {
      return None;
    }
    var names := set row | row in entry.value.0 :: row.1;
    NamesOfKey(rows, key, fold, entry.value.0, names);
    return Some((names, entry.value.1));
  }

  lemma NamesOfKey(rows: set<Row>, key: string, fold: Fold, chosen: set<Row>, names: set<string>)
    requires forall row :: row in chosen <==> IsShort(row, key, rows, fold) || IsFqdn(row, key, rows, fold)
    requires names == set row | row in chosen :: row.1
    ensures forall h :: h in names <==> Occurs(rows, h) && ShortKey(h, fold) == key
  {
    forall h ensures h in names <==> Occurs(rows, h) && ShortKey(h, fold) == key {
      if Occurs(rows, h) && ShortKey(h, fold) == key {
        var row :| row in rows && row.1 == h;
        assert row in chosen;
      }
    }
  }
}
