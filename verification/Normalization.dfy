/** What hostname normalization guarantees: it keeps every host, merges case variants only, and
  has nothing left to do on its own output. */
module Normalization {
  import opened Options
  import opened Values
  import opened Inventories
  import opened Hostnames
  import Merge

  // ----- The renaming loop -------------------------------------------------------------------

  method RenameItems(items: seq<Value>, aliases: map<string, string>) returns (renamed: seq<Value>)
    ensures renamed == RenamedItems(items, aliases)
  {
    renamed := [];
    ghost var targets := seq(|items|, n requires 0 <= n < |items| => RenamedItem(items[n], aliases));
    for n := 0 to |items|
      invariant Merge.AppendUnique(renamed, targets[n..]) == Merge.AppendUnique([], targets)
    {
      var target := RenamedItem(items[n], aliases);
      if target !in renamed {
        renamed := renamed + [target];
      }
    }
  }

  method RenameHostvars(hostvars: map<string, Value>, aliases: map<string, string>)
    returns (r: Option<map<string, Value>>)
    ensures r.None? <==> Collides(hostvars.Keys, aliases)
    ensures r.Some? ==> r.value == RenamedHostvars(hostvars, aliases)
  {
    var renamed, todo := map[], hostvars.Keys;
    while todo != {}
      invariant todo <= hostvars.Keys && !Collides(hostvars.Keys - todo, aliases)
      invariant forall t :: t in renamed <==> exists h :: h in hostvars.Keys - todo && Renamed(h, aliases) == t
      invariant forall h :: h in hostvars.Keys - todo ==>
        Renamed(h, aliases) in renamed && renamed[Renamed(h, aliases)] == hostvars[h]
    {
      var host :| host in todo;
      var target := Renamed(host, aliases);
      if target in renamed {
        return None;
      }
      renamed := renamed[target := hostvars[host]];
      todo := todo - {host};
    }
    assert hostvars.Keys - todo == hostvars.Keys;
    return Some(renamed);
  }

  method RenameGroups(groups: map<string, Value>, aliases: map<string, string>) returns (r: map<string, Value>)
    ensures r == RenamedGroups(groups, aliases)
  {
    r := groups;
    var todo := groups.Keys;
    while todo != {}
      invariant todo <= groups.Keys == r.Keys
      invariant forall g :: g in r ==> r[g] == if g in todo then groups[g] else RenamedGroup(groups[g], aliases)
    {
      var name :| name in todo;
      todo := todo - {name};
      var group := r[name];
      if group.Object? && "hosts" in group.fields && group.fields["hosts"].Array? {
        var items := RenameItems(group.fields["hosts"].items, aliases);
        r := r[name := Object(group.fields["hosts" := Array(items)])];
      }
    }
  }

  /** `_rename_inventory_hosts` */
  method RenameInventory(inv: Inventory, aliases: map<string, string>) returns (r: Option<Inventory>)
    ensures r == RenamedInventory(inv, aliases)
  {
    if aliases == map[] {
      return Some(inv);
    }
    var hostvars := RenameHostvars(inv.hostvars, aliases);
    if hostvars.None? {
      return None;
    }
    var groups := RenameGroups(inv.groups, aliases);
    return Some(Inventory(hostvars.value, groups));
  }

  // ----- Hosts are kept ----------------------------------------------------------------------

  lemma RenamedItemsHosts(items: seq<Value>, aliases: map<string, string>)
    ensures TextItems(RenamedItems(items, aliases)) == RenamedSet(TextItems(items), aliases)
  {
    var targets := seq(|items|, n requires 0 <= n < |items| => RenamedItem(items[n], aliases));
    Merge.AppendUniqueMembers([], targets);
    forall h | h in RenamedSet(TextItems(items), aliases) ensures h in TextItems(targets) {
      var g :| g in TextItems(items) && Renamed(g, aliases) == h;
      var n :| 0 <= n < |items| && items[n] == Leaf(Text(g));
      assert targets[n] == Leaf(Text(h));
    }
    forall h | h in TextItems(targets) ensures h in RenamedSet(TextItems(items), aliases) {
      var n :| 0 <= n < |targets| && targets[n] == Leaf(Text(h));
      assert RenamedItem(items[n], aliases) == Leaf(Text(h)) && items[n].scalar.s in TextItems(items);
    }
  }

  /** What is no hostname stays in the list, and nothing of the kind comes in. */
  lemma OtherItemsStay(items: seq<Value>, aliases: map<string, string>, x: Value)
    requires !(x.Leaf? && x.scalar.Text?)
    ensures x in RenamedItems(items, aliases) <==> x in items
  {
    var targets := seq(|items|, n requires 0 <= n < |items| => RenamedItem(items[n], aliases));
    Merge.AppendUniqueMembers([], targets);
    if x in items {
      var n :| 0 <= n < |items| && items[n] == x;
      assert targets[n] == x;
    }
    if x in targets {
      var n :| 0 <= n < |targets| && targets[n] == x;
      assert RenamedItem(items[n], aliases) == x;
    }
  }

  lemma RenamedGroupHosts(group: Value, aliases: map<string, string>)
    ensures GroupHosts(RenamedGroup(group, aliases)) == RenamedSet(GroupHosts(group), aliases)
  {
    if group.Object? && "hosts" in group.fields && group.fields["hosts"].Array? {
      RenamedItemsHosts(group.fields["hosts"].items, aliases);
    }
  }

  lemma RenamedGroupsHosts(groups: map<string, Value>, aliases: map<string, string>)
    ensures AllGroupHosts(RenamedGroups(groups, aliases)) == RenamedSet(AllGroupHosts(groups), aliases)
  {
    var renamed := RenamedGroups(groups, aliases);
    forall h | h in AllGroupHosts(renamed) ensures h in RenamedSet(AllGroupHosts(groups), aliases) {
      var g :| g in renamed && h in GroupHosts(renamed[g]);
      RenamedGroupHosts(groups[g], aliases);
      var k :| k in GroupHosts(groups[g]) && Renamed(k, aliases) == h;
      assert k in AllGroupHosts(groups);
    }
    forall h | h in RenamedSet(AllGroupHosts(groups), aliases) ensures h in AllGroupHosts(renamed) {
      var k :| k in AllGroupHosts(groups) && Renamed(k, aliases) == h;
      var g :| g in groups && k in GroupHosts(groups[g]);
      RenamedGroupHosts(groups[g], aliases);
      assert h in GroupHosts(renamed[g]);
    }
  }

  lemma RenamedUnion(a: set<string>, b: set<string>, aliases: map<string, string>)
    ensures RenamedSet(a + b, aliases) == RenamedSet(a, aliases) + RenamedSet(b, aliases)
  {
    forall h | h in RenamedSet(a, aliases) + RenamedSet(b, aliases) ensures h in RenamedSet(a + b, aliases) {
      var g :| g in a + b && Renamed(g, aliases) == h;
    }
  }

  lemma RenamedNonEmpty(hosts: set<string>, aliases: map<string, string>)
    requires "" !in aliases && forall h :: h in aliases ==> aliases[h] != ""
    ensures RenamedSet(hosts - {""}, aliases) == RenamedSet(hosts, aliases) - {""}
  {
    forall h | h in RenamedSet(hosts, aliases) - {""} ensures h in RenamedSet(hosts - {""}, aliases) {
      var g :| g in hosts && Renamed(g, aliases) == h;
      assert g in hosts - {""};
    }
  }

  lemma RenamedByNothing(hosts: set<string>)
    ensures RenamedSet(hosts, map[]) == hosts
  {
    forall h | h in hosts ensures h in RenamedSet(hosts, map[]) {
      assert Renamed(h, map[]) == h;
    }
  }

  /** Renaming keeps exactly the renamed hosts, in hostvars and groups together. */
  lemma RenamedHosts(inv: Inventory, aliases: map<string, string>)
    requires RenamedInventory(inv, aliases).Some?
    requires "" !in aliases && forall h :: h in aliases ==> aliases[h] != ""
    ensures Hosts(RenamedInventory(inv, aliases).value) == RenamedSet(Hosts(inv), aliases)
  {
    if aliases == map[] {
      RenamedByNothing(Hosts(inv));
    } else {
      RenamedGroupsHosts(inv.groups, aliases);
      assert RenamedHostvars(inv.hostvars, aliases).Keys == RenamedSet(inv.hostvars.Keys, aliases);
      RenamedUnion(inv.hostvars.Keys, AllGroupHosts(inv.groups), aliases);
      RenamedNonEmpty(AllHosts(inv), aliases);
    }
  }

  // ----- The alias pass ----------------------------------------------------------------------

  lemma AliasOfKey(rows: set<Row>, mode: Mode, fold: Fold, aliases: map<string, string>, h: string)
    requires IsAliasMap(rows, mode, fold, aliases) && h in aliases
    ensures ShortKey(aliases[h], fold) == ShortKey(h, fold) && Dotted(aliases[h]) == mode.NormalizeFqdn?
    ensures Occurs(rows, aliases[h]) && aliases[h] in aliases
  {
    var key := ShortKey(h, fold);
    assert IsCanonical(rows, mode, fold, aliases[h], key);
  }

  /** Two hosts of one source get one name exactly when they are the same, or when both are
    mapped under one key; and then they differ in letter case only. */
  lemma NearlyInjective(rows: set<Row>, mode: Mode, fold: Fold, aliases: map<string, string>, i: nat, g: string,
                        h: string)
    requires IsAliasMap(rows, mode, fold, aliases) && (i, g) in rows && (i, h) in rows
    ensures Renamed(g, aliases) == Renamed(h, aliases) <==>
      g == h || (g in aliases && h in aliases && ShortKey(g, fold) == ShortKey(h, fold))
    ensures Renamed(g, aliases) == Renamed(h, aliases) ==> g == h || fold(g) == fold(h)
  {
    if g in aliases {
      AliasOfKey(rows, mode, fold, aliases, g);
    }
    if h in aliases {
      AliasOfKey(rows, mode, fold, aliases, h);
    }
    if g in aliases && h in aliases && ShortKey(g, fold) == ShortKey(h, fold) {
      var key := ShortKey(g, fold);
      assert Matched(rows, key, fold);
      var name :| OneFqdn(rows, key, name, fold);
      assert if Dotted(g) then IsFqdn((i, g), key, rows, fold) else IsShort((i, g), key, rows, fold);
      assert if Dotted(h) then IsFqdn((i, h), key, rows, fold) else IsShort((i, h), key, rows, fold);
    }
  }

  /** Renaming one source with the alias map of all is refused exactly when two different hosts of it
    with variables are mapped under one key. */
  lemma RenamingRefusedIff(sources: seq<Inventory>, mode: Mode, fold: Fold, aliases: map<string, string>, i: nat)
    requires IsAliasMap(Rows(sources), mode, fold, aliases) && i < |sources|
    ensures RenamedInventory(sources[i], aliases).None? <==>
      exists g, h :: g in sources[i].hostvars && h in sources[i].hostvars && MergedByAlias(aliases, fold, g, h)
  {
    var hosts := sources[i].hostvars;
    forall g, h | g in hosts && h in hosts && g != h
      ensures Renamed(g, aliases) == Renamed(h, aliases) <==> MergedByAlias(aliases, fold, g, h)
    {
      AliasesNonEmpty(sources, mode, fold, aliases);
      if g != "" && h != "" {
        assert g in Hosts(sources[i]) && h in Hosts(sources[i]) && {(i, g), (i, h)} <= Rows(sources);
        NearlyInjective(Rows(sources), mode, fold, aliases, i, g, h);
      }
    }
    if g, h :| g in hosts && h in hosts && MergedByAlias(aliases, fold, g, h) {
      assert Collides(hosts.Keys, aliases);
    }
    if RenamedInventory(sources[i], aliases).None? {
      var g, h :| g in hosts && h in hosts && g != h && Renamed(g, aliases) == Renamed(h, aliases);
      assert MergedByAlias(aliases, fold, g, h);
    }
  }

  // ----- Which names meet --------------------------------------------------------------------

  /** The head is the part of the host before its first dot, or all of it. */
  ghost predicate HasLabel(host: string, head: string) {
    !Dotted(head) && (host == head || exists domain :: host == head + "." + domain)
  }

  lemma {:induction false} FirstLabelIs(head: string, domain: string)
    requires !Dotted(head)
    ensures FirstLabel(head + "." + domain) == head
  {
    var host := head + "." + domain;
    if head == "" {
      assert host[0] == '.';
    } else {
      assert host[0] == head[0] && host[1..] == head[1..] + "." + domain;
      FirstLabelIs(head[1..], domain);
    }
  }

  lemma ShortKeyIs(host: string, head: string, fold: Fold)
    requires HasLabel(host, head)
    ensures ShortKey(host, fold) == fold(head)
  {
    if host != head {
      var domain :| host == head + "." + domain;
      assert host[|head|] == '.';
      FirstLabelIs(head, domain);
    }
  }

  lemma {:induction false} LabelExists(host: string) returns (head: string)
    ensures HasLabel(host, head)
  {
    if Dotted(host) {
      var i :| 0 <= i < |host| && host[i] == '.';
      head := LabelBefore(host, i);
    } else {
      head := host;
    }
  }

  lemma {:induction false} LabelBefore(host: string, i: nat) returns (head: string)
    requires i < |host| && host[i] == '.'
    ensures HasLabel(host, head)
    decreases i
  {
    if j :| 0 <= j < i && host[j] == '.' {
      head := LabelBefore(host, j);
    } else {
      head := host[..i];
      assert host == head + "." + host[i + 1..];
    }
  }

  /** A host of some source. */
  ghost predicate IsHost(sources: seq<Inventory>, host: string) {
    exists i :: 0 <= i < |sources| && host in Hosts(sources[i])
  }

  ghost predicate InOneSource(sources: seq<Inventory>, g: string, h: string) {
    exists i :: 0 <= i < |sources| && g in Hosts(sources[i]) && h in Hosts(sources[i])
  }

  /** No other host of the sources has a head that folds like the short name. */
  ghost predicate AloneWithLabel(sources: seq<Inventory>, fold: Fold, short: string, qualified: string) {
    forall host, head :: IsHost(sources, host) && HasLabel(host, head) && fold(head) == fold(short) ==>
      host == short || host == qualified
  }

  lemma HostIsRow(sources: seq<Inventory>, host: string)
    ensures IsHost(sources, host) <==> Occurs(Rows(sources), host)
  {
    if i :| 0 <= i < |sources| && host in Hosts(sources[i]) {
      assert (i, host) in Rows(sources);
    }
  }

  /** A short name and the one qualified name with its head become one host, when no source has
    both: the short one or the qualified one, as the mode says. */
  lemma NamesMeet(sources: seq<Inventory>, mode: Mode, fold: Fold, aliases: map<string, string>, short: string,
                  domain: string)
    requires !mode.NormalizeNone? && IsAliasMap(Rows(sources), mode, fold, aliases) && !Dotted(short)
    requires IsHost(sources, short) && IsHost(sources, short + "." + domain)
    requires !InOneSource(sources, short, short + "." + domain)
    requires AloneWithLabel(sources, fold, short, short + "." + domain)
    ensures Renamed(short, aliases) == Renamed(short + "." + domain, aliases)
         == if mode.NormalizeShort? then short else short + "." + domain
  {
    var (rows, qualified, key) := (Rows(sources), short + "." + domain, fold(short));
    assert qualified[|short|] == '.' && HasLabel(short, short) && HasLabel(qualified, short);
    ShortKeyIs(short, short, fold);
    ShortKeyIs(qualified, short, fold);
    HostIsRow(sources, short);
    HostIsRow(sources, qualified);
    forall row | row in rows && ShortKey(row.1, fold) == key ensures row.1 == short || row.1 == qualified {
      var head := LabelExists(row.1);
      ShortKeyIs(row.1, head, fold);
      HostIsRow(sources, row.1);
      assert IsHost(sources, row.1);
    }
    PairIsMatched(rows, key, fold, short, qualified);
    assert IsCanonical(rows, mode, fold, aliases[short], key) && IsCanonical(rows, mode, fold, aliases[qualified], key);
  }

  lemma PairIsMatched(rows: set<Row>, key: string, fold: Fold, short: string, qualified: string)
    requires Occurs(rows, short) && Occurs(rows, qualified) && !Dotted(short) && Dotted(qualified)
    requires ShortKey(short, fold) == key == ShortKey(qualified, fold)
    requires forall row :: row in rows && ShortKey(row.1, fold) == key ==> row.1 == short || row.1 == qualified
    requires forall i :: !((i, short) in rows && (i, qualified) in rows)
    ensures Matched(rows, key, fold)
  {
    var s :| s in rows && s.1 == short;
    var q :| q in rows && q.1 == qualified;
    assert IsShort(s, key, rows, fold) && IsFqdn(q, key, rows, fold);
    assert OneFqdn(rows, key, fold(qualified), fold);
  }

  /** Ambiguous names stay: a short name that occurs beside a qualified form in one source, or with
    two qualified forms that differ in more than letter case. */
  lemma AmbiguousStays(sources: seq<Inventory>, mode: Mode, fold: Fold, aliases: map<string, string>,
                       short: string, g: string, h: string)
    requires IsAliasMap(Rows(sources), mode, fold, aliases) && IsHost(sources, short) && !Dotted(short)
    requires IsHost(sources, g) && IsHost(sources, h) && Dotted(g) && Dotted(h) && HasLabel(g, short)
    requires HasLabel(h, short)
    requires InOneSource(sources, short, g) || fold(g) != fold(h)
    ensures Renamed(short, aliases) == short && Renamed(g, aliases) == g && Renamed(h, aliases) == h
  {
    var (rows, key) := (Rows(sources), fold(short));
    ShortKeyIs(short, short, fold);
    ShortKeyIs(g, short, fold);
    ShortKeyIs(h, short, fold);
    HostIsRow(sources, g);
    HostIsRow(sources, h);
    if i :| 0 <= i < |sources| && short in Hosts(sources[i]) && g in Hosts(sources[i]) {
      assert {(i, short), (i, g)} <= rows;
      BothFormsInOneSource(rows, key, fold, i, short, g);
    } else {
      TwoQualifiedForms(rows, key, fold, g, h);
    }
  }

  lemma BothFormsInOneSource(rows: set<Row>, key: string, fold: Fold, i: nat, short: string, qualified: string)
    requires {(i, short), (i, qualified)} <= rows && !Dotted(short) && Dotted(qualified)
    requires ShortKey(short, fold) == key == ShortKey(qualified, fold)
    ensures !Matched(rows, key, fold)
  {
    assert IsShort((i, short), key, rows, fold) && IsFqdn((i, qualified), key, rows, fold);
  }

  lemma TwoQualifiedForms(rows: set<Row>, key: string, fold: Fold, g: string, h: string)
    requires Occurs(rows, g) && Occurs(rows, h) && Dotted(g) && Dotted(h) && fold(g) != fold(h)
    requires ShortKey(g, fold) == key == ShortKey(h, fold)
    ensures !Matched(rows, key, fold)
  {
    var p :| p in rows && p.1 == g;
    var q :| q in rows && q.1 == h;
    assert IsFqdn(p, key, rows, fold) && IsFqdn(q, key, rows, fold);
  }

  /** Two sources, one with a short name, one with a qualified form of it. */
  lemma TwoSourcesMeet(a: Inventory, b: Inventory, mode: Mode, fold: Fold, aliases: map<string, string>, short: string,
                       domain: string)
    requires !mode.NormalizeNone? && IsAliasMap(Rows([a, b]), mode, fold, aliases)
    requires short != "" && !Dotted(short) && Hosts(a) == {short} && Hosts(b) == {short + "." + domain}
    ensures Renamed(short, aliases) == Renamed(short + "." + domain, aliases)
         == if mode.NormalizeShort? then short else short + "." + domain
  {
    var (sources, qualified) := ([a, b], short + "." + domain);
    assert qualified[|short|] == '.' && short != qualified;
    assert short in Hosts(sources[0]) && qualified in Hosts(sources[1]);
    NamesMeet(sources, mode, fold, aliases, short, domain);
  }

  predicate MergedByAlias(aliases: map<string, string>, fold: Fold, g: string, h: string) {
    g != h && g in aliases && h in aliases && ShortKey(g, fold) == ShortKey(h, fold)
  }

  /** The rows after renaming every source. */
  ghost function RenamedRows(rows: set<Row>, aliases: map<string, string>): set<Row> {
    set row | row in rows :: (row.0, Renamed(row.1, aliases))
  }

  /** No short name and FQDN are left to match. */
  lemma NothingLeftToMatch(rows: set<Row>, mode: Mode, fold: Fold, aliases: map<string, string>, key: string)
    requires !mode.NormalizeNone? && IsAliasMap(rows, mode, fold, aliases)
    ensures !Matched(RenamedRows(rows, aliases), key, fold)
  {
    var renamed := RenamedRows(rows, aliases);
    forall row | row in rows ensures ShortKey(Renamed(row.1, aliases), fold) == ShortKey(row.1, fold) {
      if row.1 in aliases {
        AliasOfKey(rows, mode, fold, aliases, row.1);
      }
    }
    if Matched(rows, key, fold) {
      forall row | row in rows && ShortKey(row.1, fold) == key
        ensures Dotted(Renamed(row.1, aliases)) == mode.NormalizeFqdn?
      {
        assert Occurs(rows, row.1);
        AliasOfKey(rows, mode, fold, aliases, row.1);
      }
    } else {
      forall row ensures IsShort(row, key, renamed, fold) <==> IsShort(row, key, rows, fold) {
        KeyUntouched(rows, mode, fold, aliases, key, row);
      }
      forall row ensures IsFqdn(row, key, renamed, fold) <==> IsFqdn(row, key, rows, fold) {
        KeyUntouched(rows, mode, fold, aliases, key, row);
      }
      SameRowsSameMatch(rows, renamed, key, fold);
    }
  }

  lemma KeyUntouched(rows: set<Row>, mode: Mode, fold: Fold, aliases: map<string, string>, key: string, row: Row)
    requires !mode.NormalizeNone? && IsAliasMap(rows, mode, fold, aliases) && !Matched(rows, key, fold)
    ensures ShortKey(row.1, fold) == key ==> (row in RenamedRows(rows, aliases) <==> row in rows)
  {
    if ShortKey(row.1, fold) == key {
      if row in rows {
        assert row == (row.0, Renamed(row.1, aliases));
      }
      if row in RenamedRows(rows, aliases) {
        var r :| r in rows && row == (r.0, Renamed(r.1, aliases));
        if r.1 in aliases {
          AliasOfKey(rows, mode, fold, aliases, r.1);
        }
      }
    }
  }

  lemma SameRowsSameMatch(rows: set<Row>, others: set<Row>, key: string, fold: Fold)
    requires forall row :: IsShort(row, key, others, fold) <==> IsShort(row, key, rows, fold)
    requires forall row :: IsFqdn(row, key, others, fold) <==> IsFqdn(row, key, rows, fold)
    ensures Matched(others, key, fold) ==> Matched(rows, key, fold)
  {
    if Matched(others, key, fold) {
      var s :| IsShort(s, key, others, fold);
      assert IsShort(s, key, rows, fold);
      var name :| OneFqdn(others, key, name, fold);
      var f :| IsFqdn(f, key, others, fold);
      assert IsFqdn(f, key, rows, fold);
      assert OneFqdn(rows, key, name, fold);
    }
  }

  // ----- The appended domain -----------------------------------------------------------------

  lemma DomainNames(inv: Inventory, domain: string, g: string, h: string)
    requires g in Hosts(inv) && h in Hosts(inv)
    ensures var aliases := DomainAliases(inv, domain);
      && Dotted(Renamed(h, aliases)) && Renamed(h, aliases) != ""
      && (Renamed(g, aliases) == Renamed(h, aliases) <==>
            g == h || (!Dotted(g) && h == g + "." + domain) || (!Dotted(h) && g == h + "." + domain))
  {
    assert (g + "." + domain)[|g|] == '.' && (h + "." + domain)[|h|] == '.';
    if !Dotted(g) && !Dotted(h) && g + "." + domain == h + "." + domain {
      assert g == (g + "." + domain)[..|g|] && h == (h + "." + domain)[..|h|];
    }
  }

  /** Appending the domain is refused exactly when a short name and its qualified form both have
    host variables. */
  lemma DomainRefusedIff(inv: Inventory, domain: string)
    requires domain != ""
    ensures WithDomain(inv, domain).None? <==>
      exists h :: h in inv.hostvars && h != "" && !Dotted(h) && h + "." + domain in inv.hostvars
  {
    var aliases := DomainAliases(inv, domain);
    if h :| h in inv.hostvars && h != "" && !Dotted(h) && h + "." + domain in inv.hostvars {
      DomainNames(inv, domain, h, h + "." + domain);
    }
    if WithDomain(inv, domain).None? {
      var g, h :| g in inv.hostvars && h in inv.hostvars && g != h && Renamed(g, aliases) == Renamed(h, aliases);
      if g == "" {
        assert Renamed(g, aliases) == "";
        DomainNames(inv, domain, h, h);
      } else if h == "" {
        assert Renamed(h, aliases) == "";
        DomainNames(inv, domain, g, g);
      } else {
        DomainNames(inv, domain, g, h);
      }
    }
  }

  /** When it is not refused, two hosts become one exactly when a short name and its qualified
    form both occur somewhere: such a collision is rejected only between host variables. */
  lemma DomainMergesIff(inv: Inventory, domain: string)
    requires domain != "" && WithDomain(inv, domain).Some?
    ensures (exists g, h :: g in Hosts(inv) && h in Hosts(inv) && g != h &&
               Renamed(g, DomainAliases(inv, domain)) == Renamed(h, DomainAliases(inv, domain)))
       <==> (exists h :: h in Hosts(inv) && !Dotted(h) && h + "." + domain in Hosts(inv))
  {
    var aliases := DomainAliases(inv, domain);
    if g, h :| g in Hosts(inv) && h in Hosts(inv) && g != h && Renamed(g, aliases) == Renamed(h, aliases) {
      DomainNames(inv, domain, g, h);
      assert exists k :: k in Hosts(inv) && !Dotted(k) && k + "." + domain in Hosts(inv);
    }
    if h :| h in Hosts(inv) && !Dotted(h) && h + "." + domain in Hosts(inv) {
      DomainNames(inv, domain, h, h + "." + domain);
    }
  }

  /** A host with variables and its qualified form in a group silently become one host. */
  lemma DomainMergesSilently() returns (inv: Inventory)
    ensures "w" in Hosts(inv) && "w.d.e" in Hosts(inv) && WithDomain(inv, "d.e").Some?
    ensures Renamed("w", DomainAliases(inv, "d.e")) == Renamed("w.d.e", DomainAliases(inv, "d.e"))
  {
    inv := OneHostTwice("w", "w.d.e");
    assert "w" + "." + "d.e" == "w.d.e" && !Dotted("w");
    DomainRefusedIff(inv, "d.e");
    DomainNames(inv, "d.e", "w", "w.d.e");
  }

  lemma OneHostTwice(short: string, qualified: string) returns (inv: Inventory)
    ensures inv.hostvars.Keys == {short} && Hosts(inv) == {short, qualified} - {""}
  {
    var group := Object(map["hosts" := Array([Leaf(Text(qualified))])]);
    inv := Inventory(map[short := Object(map[])], map["g" := group]);
    assert group.fields["hosts"].items[0] == Leaf(Text(qualified));
    assert TextItems(group.fields["hosts"].items) == {qualified};
    assert AllGroupHosts(inv.groups) == GroupHosts(inv.groups["g"]);
  }

  // ----- Both passes -------------------------------------------------------------------------

  method NormalizeSource(inv: Inventory, aliases: map<string, string>, domain: string) returns (r: Option<Inventory>)
    ensures r == NormalizedSource(inv, aliases, domain)
  {
    r := RenameInventory(inv, aliases);
    if r.Some? && domain != "" {
      r := RenameInventory(r.value, DomainAliases(r.value, domain));
    }
  }

  method NormalizeEach(sources: seq<Inventory>, aliases: map<string, string>, domain: string)
    returns (r: Option<seq<Inventory>>)
    ensures r == NormalizedSources(sources, aliases, domain)
  {
    var normalized: seq<Inventory> := [];
    for n := 0 to |sources|
      invariant |normalized| == n
      invariant forall i :: 0 <= i < n ==> NormalizedSource(sources[i], aliases, domain) == Some(normalized[i])
    {
      var transformed := NormalizeSource(sources[n], aliases, domain);
      if transformed.None? {
        return None;
      }
      normalized := normalized + [transformed.value];
    }
    AllNormalized(sources, aliases, domain, normalized);
    return Some(normalized);
  }

  /** `normalize_source_inventories` */
  method NormalizeSources(sources: seq<Inventory>, mode: Mode, fold: Fold, domain: string)
    returns (r: Option<seq<Inventory>>, ghost aliases: map<string, string>)
    ensures IsAliasMap(Rows(sources), mode, fold, aliases)
    ensures r == NormalizedSources(sources, aliases, domain)
  {
    var found := NormalizationMap(sources, mode, fold);
    aliases := found;
    r := NormalizeEach(sources, found, domain);
  }

  lemma AllNormalized(sources: seq<Inventory>, aliases: map<string, string>, domain: string, normalized: seq<Inventory>)
    requires |normalized| == |sources|
    requires forall i :: 0 <= i < |sources| ==> NormalizedSource(sources[i], aliases, domain) == Some(normalized[i])
    ensures NormalizedSources(sources, aliases, domain) == Some(normalized)
  {
    assert NormalizedSources(sources, aliases, domain).value == normalized;
  }

  lemma AliasesNonEmpty(sources: seq<Inventory>, mode: Mode, fold: Fold, aliases: map<string, string>)
    requires IsAliasMap(Rows(sources), mode, fold, aliases)
    ensures "" !in aliases && forall h :: h in aliases ==> aliases[h] != ""
  {
    forall h | h in aliases ensures h != "" && aliases[h] != "" {
      AliasOfKey(Rows(sources), mode, fold, aliases, h);
    }
  }

  lemma NormalizedHosts(inv: Inventory, aliases: map<string, string>, domain: string)
    requires NormalizedSource(inv, aliases, domain).Some?
    requires "" !in aliases && forall h :: h in aliases ==> aliases[h] != ""
    ensures var hosts := Hosts(NormalizedSource(inv, aliases, domain).value);
      if domain == "" then hosts == RenamedSet(Hosts(inv), aliases) else forall h :: h in hosts ==> Dotted(h)
  {
    RenamedHosts(inv, aliases);
    if domain != "" {
      var renamed := RenamedInventory(inv, aliases).value;
      RenamedHosts(renamed, DomainAliases(renamed, domain));
      forall h | h in Hosts(renamed) ensures Dotted(Renamed(h, DomainAliases(renamed, domain))) {
        DomainNames(renamed, domain, h, h);
      }
    }
  }

  lemma NormalizedRows(sources: seq<Inventory>, aliases: map<string, string>, domain: string)
    requires NormalizedSources(sources, aliases, domain).Some?
    requires "" !in aliases && forall h :: h in aliases ==> aliases[h] != ""
    ensures var rows := Rows(NormalizedSources(sources, aliases, domain).value);
      if domain == "" then rows == RenamedRows(Rows(sources), aliases) else forall row :: row in rows ==> Dotted(row.1)
  {
    var result := NormalizedSources(sources, aliases, domain).value;
    forall i | 0 <= i < |sources|
      ensures if domain == "" then Hosts(result[i]) == RenamedSet(Hosts(sources[i]), aliases)
              else forall h :: h in Hosts(result[i]) ==> Dotted(h)
    {
      NormalizedHosts(sources[i], aliases, domain);
    }
    if domain == "" {
      RowsOfRenamed(sources, aliases, result);
    }
  }

  lemma RowsOfRenamed(sources: seq<Inventory>, aliases: map<string, string>, result: seq<Inventory>)
    requires |result| == |sources|
    requires forall i :: 0 <= i < |sources| ==> Hosts(result[i]) == RenamedSet(Hosts(sources[i]), aliases)
    ensures Rows(result) == RenamedRows(Rows(sources), aliases)
  {
    forall row | row in RenamedRows(Rows(sources), aliases) ensures row in Rows(result) {
      var r :| r in Rows(sources) && row == (r.0, Renamed(r.1, aliases));
      assert Renamed(r.1, aliases) in Hosts(result[r.0]);
    }
    forall row | row in Rows(result) ensures row in RenamedRows(Rows(sources), aliases) {
      var h :| h in Hosts(sources[row.0]) && row.1 == Renamed(h, aliases);
      assert (row.0, h) in Rows(sources);
    }
  }

  /** Normalizing sources that were normalized in the same mode finds no alias at all and
    changes nothing. */
  lemma NormalizationIdempotent(sources: seq<Inventory>, mode: Mode, fold: Fold, domain: string,
                                aliases: map<string, string>, again: map<string, string>)
    requires IsAliasMap(Rows(sources), mode, fold, aliases) && NormalizedSources(sources, aliases, domain).Some?
    requires IsAliasMap(Rows(NormalizedSources(sources, aliases, domain).value), mode, fold, again)
    ensures again == map[]
    ensures NormalizedSources(NormalizedSources(sources, aliases, domain).value, again, domain)
         == NormalizedSources(sources, aliases, domain)
  {
    var result := NormalizedSources(sources, aliases, domain).value;
    AliasesNonEmpty(sources, mode, fold, aliases);
    NormalizedRows(sources, aliases, domain);
    if !mode.NormalizeNone? {
      forall h ensures h !in again {
        if domain == "" {
          NothingLeftToMatch(Rows(sources), mode, fold, aliases, ShortKey(h, fold));
        }
      }
    }
    forall i | 0 <= i < |result| ensures NormalizedSource(result[i], map[], domain) == Some(result[i]) {
      if domain != "" {
        NormalizedHosts(sources[i], aliases, domain);
        NothingToQualify(result[i], domain);
      }
    }
    AllNormalized(result, map[], domain, result);
  }

  lemma NothingToQualify(inv: Inventory, domain: string)
    requires forall h :: h in Hosts(inv) ==> Dotted(h)
    ensures NormalizedSource(inv, map[], domain) == Some(inv)
  {
    assert DomainAliases(inv, domain) == map[];
  }
}
