/** Composing canonical inventories (`compose_inventories`,
  app/services/composite_inventory.py). */
module Compose {
  import opened Options
  import opened Values
  import opened Inventories
  import opened Merge
  import opened Hostnames
  import Normalization

  /** An inventory as one value: merging every host and every group in turn is one merge. */
  function Encode(inv: Inventory): Value {
    Object(map["hostvars" := Object(inv.hostvars), "groups" := Object(inv.groups)])
  }

  function Encoded(sources: seq<Inventory>): seq<Value> {
    seq(|sources|, i requires 0 <= i < |sources| => Encode(sources[i]))
  }

  predicate IsInventory(v: Value) {
    && v.Object? && v.fields.Keys == {"hostvars", "groups"}
    && v.fields["hostvars"].Object? && v.fields["groups"].Object?
  }

  function Decode(v: Value): Inventory
    requires IsInventory(v)
  {
    Inventory(v.fields["hostvars"].fields, v.fields["groups"].fields)
  }

  /** Host variables and groups are objects; anything else is an error of its source. */
  predicate WellFormed(inv: Inventory) {
    && (forall h :: h in inv.hostvars ==> inv.hostvars[h].Object?)
    && (forall g :: g in inv.groups ==> inv.groups[g].Object?)
  }

  const NOTHING := Inventory(map[], map[])

  function WithHosts(hostvars: map<string, Value>, hosts: set<string>): map<string, Value> {
    map h | h in hostvars.Keys + hosts :: if h in hostvars then hostvars[h] else Object(map[])
  }

  function WithAll(groups: map<string, Value>): map<string, Value> {
    if "all" in groups then groups else groups["all" := Object(map["children" := Array([])])]
  }

  /** Every host of a group gets variables, and the group "all" exists. */
  function Completed(inv: Inventory): Inventory {
    Inventory(WithHosts(inv.hostvars, AllGroupHosts(inv.groups)), WithAll(inv.groups))
  }

  /** Merge normalized sources into the empty inventory, and complete the result. */
  function Composed(sources: seq<Inventory>): (r: Option<Inventory>) {
    if |sources| < 2 || exists i :: 0 <= i < |sources| && !WellFormed(sources[i]) then None
    else
      var merged := MergeAll(Encode(NOTHING), Encoded(sources));
      MergedIsInventory(Encode(NOTHING), Encoded(sources));
      if merged.None? then None else Some(Completed(Decode(merged.value)))
  }

  lemma {:induction false} MergedIsInventory(acc: Value, rest: seq<Value>)
    requires IsInventory(acc) && forall v :: v in rest ==> IsInventory(v)
    ensures MergeAll(acc, rest).Some? ==> IsInventory(MergeAll(acc, rest).value)
    decreases |rest|
  {
    if rest != [] && MergeValues(acc, rest[0]).Some? {
      assert rest[0] in rest;
      var (x, y) := (acc.fields, rest[0].fields);
      FieldsMergedIff(x, y, MergeValues(acc, rest[0]).value.fields);
      MergedIsInventory(MergeValues(acc, rest[0]).value, rest[1..]);
    }
  }

  // ----- The loops ---------------------------------------------------------------------------

  /** One of the two inner loops: the entries of one source, host variables or groups. */
  method MergeSection(combined: map<string, Value>, incoming: map<string, Value>)
    returns (r: Option<map<string, Value>>)
    requires forall k :: k in combined ==> combined[k].Object?
    ensures r.Some? ==> forall k :: k in incoming ==> incoming[k].Object?
    ensures r.Some? ==> forall k :: k in r.value ==> r.value[k].Object?
    ensures r.Some? ==> FieldsMerged(combined, incoming, r.value)
    ensures r.None? ==> exists k :: k in incoming && (!incoming[k].Object? || Conflicts(combined, incoming, k))
  {
    var fields, todo := combined, incoming.Keys;
    while todo != {}
      invariant todo <= incoming.Keys
      invariant fields.Keys == combined.Keys + (incoming.Keys - todo)
      invariant forall k :: k in incoming && k !in todo ==> incoming[k].Object?
      invariant forall k :: k in fields ==> fields[k].Object?
      invariant forall k :: k in fields ==>
        if k in todo || k !in incoming then fields[k] == combined[k]
        else if k !in combined then fields[k] == incoming[k]
        else MergeValues(combined[k], incoming[k]) == Some(fields[k])
    {
      var key :| key in todo;
      todo := todo - {key};
      if !incoming[key].Object? {
        return None;
      }
      if key !in fields {
        fields := fields[key := incoming[key]];
      } else {
        var child := MergeLoop(combined[key], incoming[key]);
        if child.None? {
          return None;
        }
        fields := fields[key := child.value];
      }
    }
    return Some(fields);
  }

  ghost predicate Conflicts(a: map<string, Value>, b: map<string, Value>, key: string) {
    key in a && key in b && MergeValues(a[key], b[key]).None?
  }

  /** Merging two encoded inventories is merging their two sections. */
  lemma MergeOfSections(a: Inventory, b: Inventory, r: Inventory)
    requires FieldsMerged(a.hostvars, b.hostvars, r.hostvars) && FieldsMerged(a.groups, b.groups, r.groups)
    ensures MergeValues(Encode(a), Encode(b)) == Some(Encode(r))
  {
    FieldsMergedIff(a.hostvars, b.hostvars, r.hostvars);
    FieldsMergedIff(a.groups, b.groups, r.groups);
    MergeOfTwoFields(Object(a.hostvars), Object(a.groups), Object(b.hostvars), Object(b.groups), Object(r.hostvars),
                     Object(r.groups));
  }

  lemma MergeOfTwoFields(h1: Value, g1: Value, h2: Value, g2: Value, h3: Value, g3: Value)
    requires MergeValues(h1, h2) == Some(h3) && MergeValues(g1, g2) == Some(g3)
    ensures MergeValues(Object(map["hostvars" := h1, "groups" := g1]), Object(map["hostvars" := h2, "groups" := g2]))
         == Some(Object(map["hostvars" := h3, "groups" := g3]))
  {
    var (x, y, z) := (map["hostvars" := h1, "groups" := g1], map["hostvars" := h2, "groups" := g2],
                      map["hostvars" := h3, "groups" := g3]);
    assert FieldsMerged(x, y, z);
    FieldsMergedIff(x, y, z);
  }

  lemma SectionsMerge(a: Inventory, b: Inventory)
    requires MergeValues(Encode(a), Encode(b)).Some?
    ensures MergeValues(Object(a.hostvars), Object(b.hostvars)).Some?
    ensures MergeValues(Object(a.groups), Object(b.groups)).Some?
    ensures forall k :: !Conflicts(a.hostvars, b.hostvars, k) && !Conflicts(a.groups, b.groups, k)
  {
    var (x, y) := (Encode(a).fields, Encode(b).fields);
    assert MergeValues(x["hostvars"], y["hostvars"]).Some?;
    assert MergeValues(x["groups"], y["groups"]).Some?;
  }

  /** One source of the outer loop. */
  method AddSource(combined: Inventory, source: Inventory) returns (r: Option<Inventory>)
    requires WellFormed(combined)
    ensures r.Some? ==> WellFormed(source) && WellFormed(r.value)
    ensures r.Some? ==> MergeValues(Encode(combined), Encode(source)) == Some(Encode(r.value))
    ensures r.None? ==> !WellFormed(source) || MergeValues(Encode(combined), Encode(source)).None?
  {
    var hostvars := MergeSection(combined.hostvars, source.hostvars);
    if hostvars.None? {
      if MergeValues(Encode(combined), Encode(source)).Some? {
        SectionsMerge(combined, source);
      }
      return None;
    }
    var groups := MergeSection(combined.groups, source.groups);
    if groups.None? {
      if MergeValues(Encode(combined), Encode(source)).Some? {
        SectionsMerge(combined, source);
      }
      return None;
    }
    r := Some(Inventory(hostvars.value, groups.value));
    MergeOfSections(combined, source, r.value);
  }

  /** The final `setdefault` calls. */
  method Complete(combined: Inventory) returns (r: Inventory)
    ensures r == Completed(combined)
  {
    var hosts := AllGroupHosts(combined.groups);
    var hostvars, todo := combined.hostvars, hosts;
    while todo != {}
      invariant todo <= hosts && hostvars.Keys == combined.hostvars.Keys + (hosts - todo)
      invariant forall h :: h in hostvars ==>
        hostvars[h] == if h in combined.hostvars then combined.hostvars[h] else Object(map[])
    {
      var host :| host in todo;
      todo := todo - {host};
      if host !in hostvars {
        hostvars := hostvars[host := Object(map[])];
      }
    }
    var groups := combined.groups;
    if "all" !in groups {
      groups := groups["all" := Object(map["children" := Array([])])];
    }
    assert hostvars == WithHosts(combined.hostvars, hosts);
    r := Inventory(hostvars, groups);
  }

  lemma MergeAllStep(acc: Value, values: seq<Value>, n: nat)
    requires n < |values|
    ensures MergeAll(acc, values[n..]) ==
      match MergeValues(acc, values[n]) case None => None case Some(next) => MergeAll(next, values[n + 1..])
  {
  }

  lemma ComposedIs(sources: seq<Inventory>, combined: Inventory)
    requires |sources| >= 2 && forall i :: 0 <= i < |sources| ==> WellFormed(sources[i])
    requires MergeAll(Encode(NOTHING), Encoded(sources)) == Some(Encode(combined))
    ensures Composed(sources) == Some(Completed(combined))
  {
    assert Decode(Encode(combined)) == combined;
  }

  /** `compose_inventories` after normalization. */
  method ComposeNormalized(sources: seq<Inventory>) returns (r: Option<Inventory>)
    requires |sources| >= 2
    ensures r == Composed(sources)
  {
    var combined := NOTHING;
    ghost var values := Encoded(sources);
    for n := 0 to |sources|
      invariant WellFormed(combined) && forall i :: 0 <= i < n ==> WellFormed(sources[i])
      invariant MergeAll(Encode(combined), values[n..]) == MergeAll(Encode(NOTHING), values)
    {
      MergeAllStep(Encode(combined), values, n);
      var next := AddSource(combined, sources[n]);
      if next.None? {
        return None;
      }
      combined := next.value;
    }
    ComposedIs(sources, combined);
    var completed := Complete(combined);
    r := Some(completed);
  }

  /** `compose_inventories`: fewer than two sources, a host collision, an invalid source and a
    conflict are errors. */
  method ComposeInventories(sources: seq<Inventory>, mode: Mode, fold: Fold, domain: string)
    returns (r: Option<Inventory>, ghost aliases: map<string, string>)
    ensures |sources| < 2 ==> r.None?
    ensures |sources| >= 2 ==> IsAliasMap(Rows(sources), mode, fold, aliases)
    ensures |sources| >= 2 ==>
      r == match NormalizedSources(sources, aliases, domain) case None => None case Some(s) => Composed(s)
  {
    aliases := map[];
    if |sources| < 2 {
      return None, aliases;
    }
    var normalized;
    normalized, aliases := Normalization.NormalizeSources(sources, mode, fold, domain);
    if normalized.None? {
      return None, aliases;
    }
    r := ComposeNormalized(normalized.value);
  }
}
