/** Composition seen from the sources as they come, normalization included
  (app/services/composite_inventory.py): which hosts it keeps, and when it succeeds. */
module RawComposition {
  import opened Options
  import opened Values
  import opened Inventories
  import opened Merge
  import opened Hostnames
  import opened Compose
  import opened CompositionLaws
  import Normalization

  /** The name that a host ends up with: renamed, then qualified when it is short. */
  function FinalName(host: string, aliases: map<string, string>, domain: string): string {
    var name := Renamed(host, aliases);
    if domain == "" || name == "" || Dotted(name) then name else name + "." + domain
  }

  ghost function FinalNames(hosts: set<string>, aliases: map<string, string>, domain: string): set<string> {
    set h | h in hosts :: FinalName(h, aliases, domain)
  }

  lemma RenamedAllHosts(inv: Inventory, aliases: map<string, string>)
    requires RenamedInventory(inv, aliases).Some?
    ensures var r := RenamedInventory(inv, aliases).value;
      && AllHosts(r) == RenamedSet(AllHosts(inv), aliases) && r.groups.Keys == inv.groups.Keys
      && forall g :: HostsIn(r.groups, g) == RenamedSet(HostsIn(inv.groups, g), aliases)
  {
    if aliases == map[] {
      Normalization.RenamedByNothing(AllHosts(inv));
      forall g ensures HostsIn(inv.groups, g) == RenamedSet(HostsIn(inv.groups, g), map[]) {
        Normalization.RenamedByNothing(HostsIn(inv.groups, g));
      }
    } else {
      Normalization.RenamedGroupsHosts(inv.groups, aliases);
      assert RenamedHostvars(inv.hostvars, aliases).Keys == RenamedSet(inv.hostvars.Keys, aliases);
      Normalization.RenamedUnion(inv.hostvars.Keys, AllGroupHosts(inv.groups), aliases);
      forall g | g in inv.groups {
        Normalization.RenamedGroupHosts(inv.groups[g], aliases);
      }
    }
  }

  /** Renaming and qualifying a set of hosts gives their final names. */
  lemma FinalNamesAre(inv: Inventory, hosts: set<string>, aliases: map<string, string>, domain: string)
    requires domain != "" && RenamedSet(hosts, aliases) <= AllHosts(inv)
    ensures RenamedSet(RenamedSet(hosts, aliases), DomainAliases(inv, domain)) == FinalNames(hosts, aliases, domain)
  {
    forall h | h in hosts
      ensures Renamed(Renamed(h, aliases), DomainAliases(inv, domain)) == FinalName(h, aliases, domain)
    {
      assert Renamed(h, aliases) in AllHosts(inv);
    }
    forall n | n in FinalNames(hosts, aliases, domain)
      ensures n in RenamedSet(RenamedSet(hosts, aliases), DomainAliases(inv, domain))
    {
      var h :| h in hosts && n == FinalName(h, aliases, domain);
      assert Renamed(h, aliases) in RenamedSet(hosts, aliases);
    }
  }

  lemma NormalizedAllHosts(inv: Inventory, aliases: map<string, string>, domain: string)
    requires NormalizedSource(inv, aliases, domain).Some?
    ensures var r := NormalizedSource(inv, aliases, domain).value;
      && AllHosts(r) == FinalNames(AllHosts(inv), aliases, domain) && r.groups.Keys == inv.groups.Keys
      && forall g :: HostsIn(r.groups, g) == FinalNames(HostsIn(inv.groups, g), aliases, domain)
  {
    RenamedAllHosts(inv, aliases);
    var renamed := RenamedInventory(inv, aliases).value;
    if domain == "" {
      UnqualifiedNames(AllHosts(inv), aliases);
      forall g ensures HostsIn(renamed.groups, g) == FinalNames(HostsIn(inv.groups, g), aliases, "") {
        UnqualifiedNames(HostsIn(inv.groups, g), aliases);
      }
    } else {
      RenamedAllHosts(renamed, DomainAliases(renamed, domain));
      FinalNamesAre(renamed, AllHosts(inv), aliases, domain);
      forall g
        ensures RenamedSet(HostsIn(renamed.groups, g), DomainAliases(renamed, domain))
             == FinalNames(HostsIn(inv.groups, g), aliases, domain)
      {
        assert HostsIn(renamed.groups, g) <= AllHosts(renamed);
        FinalNamesAre(renamed, HostsIn(inv.groups, g), aliases, domain);
      }
    }
  }

  lemma UnqualifiedNames(hosts: set<string>, aliases: map<string, string>)
    ensures FinalNames(hosts, aliases, "") == RenamedSet(hosts, aliases)
  {
    assert forall h :: FinalName(h, aliases, "") == Renamed(h, aliases);
  }

  ghost function FinalHosts(sources: seq<Inventory>, aliases: map<string, string>, domain: string): set<string> {
    set i, h | 0 <= i < |sources| && h in AllHosts(sources[i]) :: FinalName(h, aliases, domain)
  }

  ghost function FinalGroupHosts(sources: seq<Inventory>, group: string, aliases: map<string, string>, domain: string)
    : set<string>
  {
    set i, h | 0 <= i < |sources| && h in HostsIn(sources[i].groups, group) :: FinalName(h, aliases, domain)
  }

  lemma NormalizedHostsTogether(sources: seq<Inventory>, aliases: map<string, string>, domain: string)
    requires NormalizedSources(sources, aliases, domain).Some?
    ensures var r := NormalizedSources(sources, aliases, domain).value;
      && (set i, h | 0 <= i < |r| && h in AllHosts(r[i]) :: h) == FinalHosts(sources, aliases, domain)
      && GroupNames(r) == GroupNames(sources)
      && forall g :: UnionOfHosts(r, g) == FinalGroupHosts(sources, g, aliases, domain)
  {
    var r := NormalizedSources(sources, aliases, domain).value;
    forall i | 0 <= i < |sources|
      ensures AllHosts(r[i]) == FinalNames(AllHosts(sources[i]), aliases, domain)
      ensures r[i].groups.Keys == sources[i].groups.Keys
      ensures forall g :: HostsIn(r[i].groups, g) == FinalNames(HostsIn(sources[i].groups, g), aliases, domain)
    {
      NormalizedAllHosts(sources[i], aliases, domain);
    }
    forall g ensures UnionOfHosts(r, g) == FinalGroupHosts(sources, g, aliases, domain) {
      assert forall i, h :: 0 <= i < |r| && h in HostsIn(sources[i].groups, g) ==>
        FinalName(h, aliases, domain) in HostsIn(r[i].groups, g);
    }
    assert forall i, h :: 0 <= i < |r| && h in AllHosts(sources[i]) ==> FinalName(h, aliases, domain) in AllHosts(r[i]);
  }

  /** The whole of a successful composition, normalization included: the hosts are exactly the final
    names of the sources' hosts, the groups those of the sources and "all", and each group has
    exactly the final names of the hosts it has in some source. */
  lemma CompositionKeepsHosts(sources: seq<Inventory>, aliases: map<string, string>, domain: string)
    requires NormalizedSources(sources, aliases, domain).Some?
    requires Composed(NormalizedSources(sources, aliases, domain).value).Some?
    ensures var r := Composed(NormalizedSources(sources, aliases, domain).value).value;
      && r.hostvars.Keys == FinalHosts(sources, aliases, domain)
      && r.groups.Keys == GroupNames(sources) + {"all"}
      && forall g :: g in r.groups ==> GroupHosts(r.groups[g]) == FinalGroupHosts(sources, g, aliases, domain)
  {
    ComposeConserves(NormalizedSources(sources, aliases, domain).value);
    NormalizedHostsTogether(sources, aliases, domain);
  }

  // ----- Renaming host variables -----------------------------------------------------------------

  type Rename = string -> string

  function Renaming(aliases: map<string, string>): Rename {
    (host: string) => Renamed(host, aliases)
  }

  function Final(aliases: map<string, string>, domain: string): Rename {
    (host: string) => FinalName(host, aliases, domain)
  }

  /** No two of the hosts end up with one name. */
  ghost predicate Apart(hosts: set<string>, rename: Rename) {
    forall g, h :: g in hosts && h in hosts && rename(g) == rename(h) ==> g == h
  }

  predicate ComesFrom(hosts: set<string>, rename: Rename, name: string) {
    exists h :: h in hosts && rename(h) == name
  }

  predicate HasVariables(hostvars: map<string, Value>, host: string, variables: Value) {
    host in hostvars && hostvars[host] == variables
  }

  /** The variables of each host move to its new name. */
  ghost predicate Moved(before: map<string, Value>, rename: Rename, after: map<string, Value>) {
    && (forall h :: h in before ==> HasVariables(after, rename(h), before[h]))
    && (forall n :: n in after ==> ComesFrom(before.Keys, rename, n))
  }

  /** On these hosts the third renaming is the first followed by the second. */
  ghost predicate Chained(hosts: set<string>, first: Rename, second: Rename, both: Rename) {
    forall h :: h in hosts ==> second(first(h)) == both(h)
  }

  lemma ApartChained(before: map<string, Value>, first: Rename, middle: map<string, Value>, second: Rename,
                     both: Rename)
    requires Moved(before, first, middle) && Chained(before.Keys, first, second, both) && Apart(before.Keys, first)
    ensures Apart(middle.Keys, second) <==> Apart(before.Keys, both)
  {
    if !Apart(middle.Keys, second) {
      var m, n :| m in middle && n in middle && m != n && second(m) == second(n);
      assert ComesFrom(before.Keys, first, m) && ComesFrom(before.Keys, first, n);
    }
    if !Apart(before.Keys, both) {
      var g, h :| g in before && h in before && g != h && both(g) == both(h);
      assert HasVariables(middle, first(g), before[g]) && HasVariables(middle, first(h), before[h]);
    }
  }

  lemma MovedChained(before: map<string, Value>, first: Rename, middle: map<string, Value>, second: Rename,
                     after: map<string, Value>, both: Rename)
    requires Moved(before, first, middle) && Moved(middle, second, after) && Chained(before.Keys, first, second, both)
    ensures Moved(before, both, after)
  {
    forall h | h in before ensures HasVariables(after, both(h), before[h]) {
      assert HasVariables(middle, first(h), before[h]);
    }
    forall n | n in after ensures ComesFrom(before.Keys, both, n) {
      assert ComesFrom(middle.Keys, second, n);
      var m :| m in middle && second(m) == n;
      assert ComesFrom(before.Keys, first, m);
    }
  }

  lemma RenamedVariables(inv: Inventory, aliases: map<string, string>)
    ensures RenamedInventory(inv, aliases).Some? <==> Apart(inv.hostvars.Keys, Renaming(aliases))
    ensures RenamedInventory(inv, aliases).Some? ==>
      Moved(inv.hostvars, Renaming(aliases), RenamedInventory(inv, aliases).value.hostvars)
  {
    var rename := Renaming(aliases);
    if RenamedInventory(inv, aliases).Some? {
      var after := RenamedInventory(inv, aliases).value.hostvars;
      forall n | n in after ensures ComesFrom(inv.hostvars.Keys, rename, n) {
        if aliases == map[] {
          assert rename(n) == n;
        }
      }
    } else {
      var g, h :| g in inv.hostvars && h in inv.hostvars && g != h && Renamed(g, aliases) == Renamed(h, aliases);
      assert rename(g) == rename(h);
    }
  }

  lemma FinalIsChained(inv: Inventory, aliases: map<string, string>, domain: string)
    requires RenamedInventory(inv, aliases).Some? && domain != ""
    ensures var names := DomainAliases(RenamedInventory(inv, aliases).value, domain);
      Chained(inv.hostvars.Keys, Renaming(aliases), Renaming(names), Final(aliases, domain))
  {
    RenamedVariables(inv, aliases);
    var renamed := RenamedInventory(inv, aliases).value;
    forall h | h in inv.hostvars
      ensures Renamed(Renamed(h, aliases), DomainAliases(renamed, domain)) == FinalName(h, aliases, domain)
    {
      assert HasVariables(renamed.hostvars, Renaming(aliases)(h), inv.hostvars[h]);
      assert Renamed(h, aliases) in AllHosts(renamed);
    }
  }

  lemma FinalWithoutDomain(hosts: set<string>, aliases: map<string, string>)
    ensures Apart(hosts, Final(aliases, "")) <==> Apart(hosts, Renaming(aliases))
    ensures forall h :: Final(aliases, "")(h) == Renaming(aliases)(h)
  {
  }

  // ----- When the whole succeeds -----------------------------------------------------------------

  /** No two hosts with variables end up with one name. */
  ghost predicate KeepsHostsApart(inv: Inventory, aliases: map<string, string>, domain: string) {
    Apart(inv.hostvars.Keys, Final(aliases, domain))
  }

  /** Normalizing one source succeeds exactly when its hosts with variables stay apart. */
  lemma NormalizedIff(inv: Inventory, aliases: map<string, string>, domain: string)
    ensures NormalizedSource(inv, aliases, domain).Some? <==> KeepsHostsApart(inv, aliases, domain)
  {
    RenamedVariables(inv, aliases);
    FinalWithoutDomain(inv.hostvars.Keys, aliases);
    if RenamedInventory(inv, aliases).None? {
      var g, h :| g in inv.hostvars && h in inv.hostvars && g != h && Renamed(g, aliases) == Renamed(h, aliases);
      assert Final(aliases, domain)(g) == Final(aliases, domain)(h);
    } else if domain != "" {
      var renamed := RenamedInventory(inv, aliases).value;
      var names := DomainAliases(renamed, domain);
      RenamedVariables(renamed, names);
      FinalIsChained(inv, aliases, domain);
      ApartChained(inv.hostvars, Renaming(aliases), renamed.hostvars, Renaming(names), Final(aliases, domain));
    }
  }

  lemma NormalizedVariables(inv: Inventory, aliases: map<string, string>, domain: string)
    requires NormalizedSource(inv, aliases, domain).Some?
    ensures Moved(inv.hostvars, Final(aliases, domain), NormalizedSource(inv, aliases, domain).value.hostvars)
  {
    var renamed := RenamedInventory(inv, aliases).value;
    var after := NormalizedSource(inv, aliases, domain).value;
    RenamedVariables(inv, aliases);
    if domain == "" {
      FinalWithoutDomain(inv.hostvars.Keys, aliases);
      SameMoves(inv.hostvars, Renaming(aliases), Final(aliases, ""), after.hostvars);
    } else {
      var names := DomainAliases(renamed, domain);
      RenamedVariables(renamed, names);
      FinalIsChained(inv, aliases, domain);
      MovedChained(inv.hostvars, Renaming(aliases), renamed.hostvars, Renaming(names), after.hostvars,
                   Final(aliases, domain));
    }
  }

  lemma SameMoves(before: map<string, Value>, rename: Rename, other: Rename, after: map<string, Value>)
    requires Moved(before, rename, after) && forall h :: other(h) == rename(h)
    ensures Moved(before, other, after)
  {
    forall n | n in after ensures ComesFrom(before.Keys, other, n) {
      assert ComesFrom(before.Keys, rename, n);
    }
  }

  /** The same groups, with host lists in the same places. */
  ghost predicate GroupsAlike(before: map<string, Value>, after: map<string, Value>) {
    before.Keys == after.Keys && forall g :: g in before ==> GroupAlike(before[g], after[g])
  }

  predicate GroupAlike(before: Value, after: Value) {
    || before == after
    || (before.Object? && after.Object? && before.fields.Keys == after.fields.Keys && "hosts" in before.fields
        && before.fields["hosts"].Array? && after.fields["hosts"].Array?
        && before.fields - {"hosts"} == after.fields - {"hosts"})
  }

  lemma GroupAlikeTransitive(a: Value, b: Value, c: Value)
    requires GroupAlike(a, b) && GroupAlike(b, c)
    ensures GroupAlike(a, c)
  {
  }

  lemma RenamedGroupAlike(group: Value, aliases: map<string, string>)
    ensures GroupAlike(group, RenamedGroup(group, aliases))
  {
    var renamed := RenamedGroup(group, aliases);
    if renamed != group {
      assert renamed.fields - {"hosts"} == group.fields - {"hosts"};
    }
  }

  lemma NormalizedGroups(inv: Inventory, aliases: map<string, string>, domain: string)
    requires NormalizedSource(inv, aliases, domain).Some?
    ensures GroupsAlike(inv.groups, NormalizedSource(inv, aliases, domain).value.groups)
  {
    var renamed := RenamedInventory(inv, aliases).value;
    forall g | g in inv.groups ensures GroupAlike(inv.groups[g], renamed.groups[g]) {
      RenamedGroupAlike(inv.groups[g], aliases);
    }
    var after := NormalizedSource(inv, aliases, domain).value;
    forall g | g in inv.groups ensures GroupAlike(inv.groups[g], after.groups[g]) {
      RenamedGroupAlike(renamed.groups[g], DomainAliases(renamed, domain));
      GroupAlikeTransitive(inv.groups[g], renamed.groups[g], after.groups[g]);
    }
  }

  lemma AlikeCompatible(a: Value, b: Value, c: Value, d: Value)
    requires GroupAlike(a, b) && GroupAlike(c, d)
    ensures Compatible(a, c) <==> Compatible(b, d)
  {
    if a.Object? && c.Object? {
      forall k | k in a.fields && k in c.fields
        ensures Compatible(a.fields[k], c.fields[k]) <==> Compatible(b.fields[k], d.fields[k])
      {
        FieldAlike(a, b, k);
        FieldAlike(c, d, k);
      }
    }
  }

  lemma FieldAlike(before: Value, after: Value, key: string)
    requires before.Object? && GroupAlike(before, after) && key in before.fields
    ensures after.Object? && key in after.fields
    ensures before.fields[key] == after.fields[key] || (before.fields[key].Array? && after.fields[key].Array?)
  {
    if before != after && key != "hosts" {
      assert (before.fields - {"hosts"})[key] == (after.fields - {"hosts"})[key];
    }
  }

  /** Hosts that get one name have compatible variables. */
  ghost predicate VariablesAgree(a: map<string, Value>, b: map<string, Value>, rename: Rename) {
    forall g, h :: g in a && h in b && rename(g) == rename(h) ==> Compatible(a[g], b[h])
  }

  /** Two sources agree: on hosts that end up with one name, and on shared groups. */
  ghost predicate AgreeAsNamed(a: Inventory, b: Inventory, aliases: map<string, string>, domain: string) {
    && VariablesAgree(a.hostvars, b.hostvars, Final(aliases, domain))
    && (forall g :: g in a.groups && g in b.groups ==> Compatible(a.groups[g], b.groups[g]))
  }

  lemma AgreeIff(a: Inventory, b: Inventory, aliases: map<string, string>, domain: string)
    requires NormalizedSource(a, aliases, domain).Some? && NormalizedSource(b, aliases, domain).Some?
    ensures CompatibleSources(NormalizedSource(a, aliases, domain).value, NormalizedSource(b, aliases, domain).value)
      <==> AgreeAsNamed(a, b, aliases, domain)
  {
    var (x, y) := (NormalizedSource(a, aliases, domain).value, NormalizedSource(b, aliases, domain).value);
    NormalizedVariables(a, aliases, domain);
    NormalizedVariables(b, aliases, domain);
    NormalizedGroups(a, aliases, domain);
    NormalizedGroups(b, aliases, domain);
    VariablesAgreeIff(a.hostvars, b.hostvars, Final(aliases, domain), x.hostvars, y.hostvars);
    GroupsAgreeIff(a.groups, b.groups, x.groups, y.groups);
  }

  lemma VariablesAgreeIff(a: map<string, Value>, b: map<string, Value>, rename: Rename, x: map<string, Value>,
                          y: map<string, Value>)
    requires Moved(a, rename, x) && Moved(b, rename, y)
    ensures (forall n :: n in x && n in y ==> Compatible(x[n], y[n])) <==> VariablesAgree(a, b, rename)
  {
    forall g, h | g in a && h in b && rename(g) == rename(h)
      ensures rename(g) in x && rename(g) in y && x[rename(g)] == a[g] && y[rename(g)] == b[h]
    {
      assert HasVariables(x, rename(g), a[g]) && HasVariables(y, rename(h), b[h]);
    }
    if VariablesAgree(a, b, rename) {
      forall n | n in x && n in y ensures Compatible(x[n], y[n]) {
        assert ComesFrom(a.Keys, rename, n) && ComesFrom(b.Keys, rename, n);
        var g :| g in a && rename(g) == n;
        var h :| h in b && rename(h) == n;
      }
    }
  }

  lemma GroupsAgreeIff(a: map<string, Value>, b: map<string, Value>, x: map<string, Value>, y: map<string, Value>)
    requires GroupsAlike(a, x) && GroupsAlike(b, y)
    ensures (forall g :: g in a && g in b ==> Compatible(a[g], b[g])) <==>
      (forall g :: g in x && g in y ==> Compatible(x[g], y[g]))
  {
    forall g | g in a && g in b ensures Compatible(a[g], b[g]) <==> Compatible(x[g], y[g]) {
      AlikeCompatible(a[g], x[g], b[g], y[g]);
    }
  }

  ghost predicate AllObjects(values: map<string, Value>) {
    forall k :: k in values ==> values[k].Object?
  }

  lemma MovedObjectsIff(before: map<string, Value>, rename: Rename, after: map<string, Value>)
    requires Moved(before, rename, after)
    ensures AllObjects(after) <==> AllObjects(before)
  {
    forall h | h in before ensures HasVariables(after, rename(h), before[h]) {
    }
    forall n | n in after && AllObjects(before) ensures after[n].Object? {
      assert ComesFrom(before.Keys, rename, n);
      var h :| h in before && rename(h) == n;
    }
  }

  lemma WellFormedIff(inv: Inventory, aliases: map<string, string>, domain: string)
    requires NormalizedSource(inv, aliases, domain).Some?
    ensures WellFormed(NormalizedSource(inv, aliases, domain).value) <==> WellFormed(inv)
  {
    NormalizedVariables(inv, aliases, domain);
    NormalizedGroups(inv, aliases, domain);
    MovedWellFormedIff(inv, Final(aliases, domain), NormalizedSource(inv, aliases, domain).value);
  }

  lemma MovedWellFormedIff(before: Inventory, rename: Rename, after: Inventory)
    requires Moved(before.hostvars, rename, after.hostvars) && GroupsAlike(before.groups, after.groups)
    ensures WellFormed(after) <==> WellFormed(before)
  {
    MovedObjectsIff(before.hostvars, rename, after.hostvars);
    forall g | g in before.groups ensures before.groups[g].Object? <==> after.groups[g].Object? {
      assert GroupAlike(before.groups[g], after.groups[g]);
    }
  }

  /** What `compose_inventories` answers for sources as they come. */
  ghost function Composition(sources: seq<Inventory>, aliases: map<string, string>, domain: string): Option<Inventory> {
    match NormalizedSources(sources, aliases, domain) case None => None case Some(s) => Composed(s)
  }

  /** The whole composition, normalization included, succeeds exactly when in every source hosts with
    variables stay apart and all entries are objects, and every two sources agree under the final
    names. */
  lemma CompositionSucceedsIff(sources: seq<Inventory>, aliases: map<string, string>, domain: string)
    requires |sources| >= 2
    ensures Composition(sources, aliases, domain).Some? <==>
      && (forall i :: 0 <= i < |sources| ==> KeepsHostsApart(sources[i], aliases, domain) && WellFormed(sources[i]))
      && (forall i, j :: 0 <= i < |sources| && 0 <= j < |sources| ==>
        AgreeAsNamed(sources[i], sources[j], aliases, domain))
  {
    forall i | 0 <= i < |sources|
      ensures NormalizedSource(sources[i], aliases, domain).Some? <==> KeepsHostsApart(sources[i], aliases, domain)
    {
      NormalizedIff(sources[i], aliases, domain);
    }
    if NormalizedSources(sources, aliases, domain).Some? {
      var normalized := NormalizedSources(sources, aliases, domain).value;
      ComposeSucceedsIff(normalized);
      forall i | 0 <= i < |sources| ensures WellFormed(normalized[i]) <==> WellFormed(sources[i]) {
        WellFormedIff(sources[i], aliases, domain);
      }
      forall i, j | 0 <= i < |sources| && 0 <= j < |sources|
        ensures CompatibleSources(normalized[i], normalized[j]) <==>
          AgreeAsNamed(sources[i], sources[j], aliases, domain)
      {
        AgreeIff(sources[i], sources[j], aliases, domain);
      }
    }
  }
}
