/** Moving inventories between installations (app/services/config_portability.py): the transitive
  worklist of the export, and the two passes of the import. */
module InventoryTransfer {
  import opened Options
  import opened Strings

  type Id = nat

  datatype Kind = Filtered | Composite | Static | Plain

  /** An inventory row; its configuration names sources by id, some of which may be gone. */
  datatype Inventory = Inventory(name: string, kind: Kind, sourceId: Option<Id>, sourceIds: seq<Id>)

  type Table = map<Id, Inventory>

  /** An exported inventory; a filtered one has one source, unless none could be resolved. */
  datatype Exported = Exported(name: string, kind: Kind, source: Option<string>, sources: seq<string>)

  ghost predicate UniqueNames(table: Table) {
    forall i, j :: i in table && j in table && table[i].name == table[j].name ==> i == j
  }

  function Names(table: Table): set<string> {
    set i | i in table :: table[i].name
  }

  /** `filter_by(name=name).first()` */
  function Lookup(table: Table, name: string): (id: Option<Id>)
    requires UniqueNames(table)
    ensures id.Some? <==> name in Names(table)
    ensures id.Some? ==> id.value in table && table[id.value].name == name
  {
    if exists i :: i in table && table[i].name == name then
      var i :| i in table && table[i].name == name;
      Some(i)
    else None
  }

  /** The names of the ids that still exist, in order. */
  function Resolved(table: Table, ids: seq<Id>): seq<string> {
    if ids == [] then []
    else (if ids[0] in table then [table[ids[0]].name] else []) + Resolved(table, ids[1..])
  }

  /** `_inventory_source_names` */
  function SourceNames(table: Table, inv: Inventory): seq<string> {
    (if inv.sourceId.Some? then Resolved(table, [inv.sourceId.value]) else []) + Resolved(table, inv.sourceIds)
  }

  lemma {:induction false} ResolvedExist(table: Table, ids: seq<Id>)
    ensures forall n :: n in Resolved(table, ids) ==> n in Names(table)
  {
    if ids != [] {
      ResolvedExist(table, ids[1..]);
    }
  }

  // ----- The worklist --------------------------------------------------------------------------

  ghost predicate IsSource(table: Table, source: string, name: string) {
    exists i :: i in table && table[i].name == name && source in SourceNames(table, table[i])
  }

  ghost predicate ClosedUnderSources(table: Table, names: set<string>) {
    forall source, name :: name in names && IsSource(table, source, name) ==> source in names
  }

  lemma SourcesExist(table: Table)
    ensures forall source, name :: IsSource(table, source, name) ==> source in Names(table)
  {
    forall source, name | IsSource(table, source, name) ensures source in Names(table) {
      var i :| i in table && table[i].name == name && source in SourceNames(table, table[i]);
      if table[i].sourceId.Some? {
        ResolvedExist(table, [table[i].sourceId.value]);
      }
      ResolvedExist(table, table[i].sourceIds);
    }
  }

  ghost predicate ClosedOver(table: Table, direct: seq<string>, names: set<string>) {
    (forall n :: n in direct ==> n in names) && ClosedUnderSources(table, names)
  }

  ghost predicate WithinClosed(table: Table, direct: seq<string>, names: set<string>) {
    forall other :: ClosedOver(table, direct, other) ==> names <= other
  }

  /** The least set that contains the direct inventories and is closed under sources. */
  ghost predicate LeastClosed(table: Table, direct: seq<string>, names: set<string>) {
    ClosedOver(table, direct, names) && WithinClosed(table, direct, names)
  }

  lemma SourcesStayWithin(table: Table, direct: seq<string>, names: set<string>, name: string, sources: seq<string>)
    requires WithinClosed(table, direct, names) && name in names
    requires forall source :: source in sources ==> IsSource(table, source, name)
    ensures WithinClosed(table, direct, names + set n | n in sources)
  {
  }

  /** The inventory part of `_collect_dependency_names`: the least set that contains the direct
    inventories and is closed under sources, cyclic references or not. */
  method CollectInventories(table: Table, direct: seq<string>) returns (names: set<string>)
    requires UniqueNames(table)
    ensures LeastClosed(table, direct, names)
  {
    names := set n | n in direct;
    var pending := direct;
    ghost var all := names + Names(table);
    SourcesExist(table);
    while pending != []
      invariant names <= all && (forall n :: n in direct ==> n in names) && (forall n :: n in pending ==> n in names)
      invariant forall source, name :: name in names && name !in pending && IsSource(table, source, name) ==>
        source in names
      invariant WithinClosed(table, direct, names)
      decreases all - names, |pending|
    {
      var name := pending[|pending| - 1];
      ghost var (names0, pending0) := (names, pending);
      pending := pending[..|pending| - 1];
      assert pending0 == pending + [name];
      var id := Lookup(table, name);
      if id.Some? {
        var sources := SourceNames(table, table[id.value]);
        assert forall source :: IsSource(table, source, name) <==> source in sources;
        SourcesStayWithin(table, direct, names, name, sources);
        names, pending := AddSources(sources, names, pending);
      } else {
        assert forall source :: !IsSource(table, source, name);
      }
    }
  }

  /** The inner loop: sources not yet collected are collected and become pending. */
  method AddSources(sources: seq<string>, names0: set<string>, pending0: seq<string>)
    returns (names: set<string>, pending: seq<string>)
    ensures names == names0 + set n | n in sources
    ensures names == names0 ==> pending == pending0
    ensures pending0 <= pending && forall n :: n in pending <==> n in pending0 || (n in sources && n !in names0)
  {
    names, pending := names0, pending0;
    for k := 0 to |sources|
      invariant names == names0 + set n | n in sources[..k]
      invariant names == names0 ==> pending == pending0
      invariant pending0 <= pending && forall n :: n in pending <==>
        n in pending0 || (n in sources[..k] && n !in names0)
    {
      assert sources[..k + 1] == sources[..k] + [sources[k]];
      if sources[k] !in names {
        names, pending := names + {sources[k]}, pending + [sources[k]];
      }
    }
    assert sources[..|sources|] == sources;
  }

  // ----- The export ----------------------------------------------------------------------------

  /** `_inventory_data`, as far as sources go. */
  function ExportedAs(table: Table, inv: Inventory): Exported {
    var sources := SourceNames(table, inv);
    match inv.kind
    case Filtered => Exported(inv.name, Filtered, if sources == [] then None else Some(sources[0]), [])
    case Composite => Exported(inv.name, Composite, None, sources)
    case _ => Exported(inv.name, inv.kind, None, [])
  }

  /** A filtered inventory is exported with the name of the source it has, whatever else its
    configuration still holds. */
  lemma FilteredNamesItsSource(table: Table, inv: Inventory)
    requires inv.kind == Filtered && inv.sourceId.Some? && inv.sourceId.value in table
    ensures ExportedAs(table, inv) == Exported(inv.name, Filtered, Some(table[inv.sourceId.value].name), [])
  {
    assert Resolved(table, [inv.sourceId.value]) == [table[inv.sourceId.value].name] + Resolved(table, []);
  }

  /** A document that lists the existing ones of the named inventories, in any order. */
  ghost predicate IsExport(table: Table, names: set<string>, document: seq<Exported>) {
    && (forall k :: 0 <= k < |document| ==> IsEntry(table, names, document[k]))
    && (forall i :: i in table && table[i].name in names ==> ExportedAs(table, table[i]) in document)
  }

  ghost predicate IsEntry(table: Table, names: set<string>, data: Exported) {
    exists i :: i in table && table[i].name in names && data == ExportedAs(table, table[i])
  }

  // ----- The import ----------------------------------------------------------------------------

  predicate Lists(document: seq<Exported>, name: string) {
    exists k :: 0 <= k < |document| && document[k].name == name
  }

  ghost predicate DistinctEntries(document: seq<Exported>) {
    forall j, k :: 0 <= j < k < |document| ==> document[j].name != document[k].name
  }

  function ListedNames(document: seq<Exported>): set<string> {
    set k | 0 <= k < |document| :: document[k].name
  }

  /** What the second pass needs of one entry: a source for a filtered inventory, and every named
    source among the inventories of the destination. */
  predicate Resolvable(names: set<string>, data: Exported) {
    match data.kind
    case Filtered => data.source.Some? && data.source.value in names
    case Composite => forall n :: n in data.sources ==> n in names
    case _ => true
  }

  /** The source names that an entry carries. */
  function CarriedSources(data: Exported): seq<string> {
    match data.kind
    case Filtered => if data.source.Some? then [data.source.value] else []
    case Composite => data.sources
    case _ => []
  }

  lemma {:induction false} ResolvedNames(table: Table, ids: seq<Id>, names: seq<string>)
    requires |ids| == |names| && forall k :: 0 <= k < |ids| ==> ids[k] in table && table[ids[k]].name == names[k]
    ensures Resolved(table, ids) == names
  {
    if ids != [] {
      ResolvedNames(table, ids[1..], names[1..]);
    }
  }

  lemma {:induction false} ResolvedAlike(table: Table, other: Table, ids: seq<Id>)
    requires table.Keys == other.Keys && forall i :: i in table ==> table[i].name == other[i].name
    ensures Resolved(table, ids) == Resolved(other, ids)
  {
    if ids != [] {
      ResolvedAlike(table, other, ids[1..]);
    }
  }

  lemma {:induction false} ResolvedWithout(table: Table, id: Id, ids: seq<Id>)
    requires id !in ids
    ensures Resolved(table - {id}, ids) == Resolved(table, ids)
  {
    if ids != [] {
      ResolvedWithout(table, id, ids[1..]);
    }
  }

  class Destination {
    var rows: Table
    var nextId: Id

    ghost predicate Valid()
      reads this
    {
      UniqueNames(rows) && forall i :: i in rows ==> i < nextId
    }

    constructor ()
      ensures Valid() && rows == map[]
    {
      rows, nextId := map[], 0;
    }

    /** `_upsert_inventory_shell` */
    method UpsertShell(data: Exported)
      requires Valid()
      modifies this
      ensures Valid() && Names(rows) == Names(old(rows)) + {data.name} && old(rows).Keys <= rows.Keys
      ensures forall i :: i in old(rows) ==>
        rows[i] == if old(rows)[i].name == data.name then old(rows)[i].(kind := data.kind) else old(rows)[i]
      ensures forall i :: i in rows && i !in old(rows) ==> rows[i] == Inventory(data.name, data.kind, None, [])
    {
      var id := Lookup(rows, data.name);
      if id.None? {
        rows, nextId := rows[nextId := Inventory(data.name, data.kind, None, [])], nextId + 1;
        assert Names(rows) == Names(old(rows)) + {data.name} by {
          assert forall i :: i in old(rows) ==> rows[i] == old(rows)[i];
          assert rows[old(nextId)].name == data.name;
        }
      } else {
        rows := rows[id.value := rows[id.value].(kind := data.kind)];
        assert Names(rows) == Names(old(rows)) by {
          assert forall i :: i in rows ==> rows[i].name == old(rows)[i].name;
        }
      }
    }

    /** The first pass. */
    method CreateShells(document: seq<Exported>)
      requires Valid()
      modifies this
      ensures Valid() && old(rows).Keys <= rows.Keys
      ensures Names(rows) == Names(old(rows)) + ListedNames(document)
      ensures forall i :: i in old(rows) ==>
        rows[i].name == old(rows)[i].name && (rows[i] == old(rows)[i] || Lists(document, rows[i].name))
      ensures StaticKept(old(rows), rows, document)
      ensures DistinctEntries(document) ==> forall k :: 0 <= k < |document| ==> KindSet(rows, document[k])
    {
      for n := 0 to |document|
        invariant Valid() && old(rows).Keys <= rows.Keys
        invariant Names(rows) == Names(old(rows)) + ListedNames(document[..n])
        invariant forall i :: i in old(rows) ==>
          rows[i].name == old(rows)[i].name && (rows[i] == old(rows)[i] || Lists(document, rows[i].name))
        invariant StaticKept(old(rows), rows, document)
        invariant DistinctEntries(document) ==> forall k :: 0 <= k < n ==> KindSet(rows, document[k])
      {
        assert ListedNames(document[..n + 1]) == ListedNames(document[..n]) + {document[n].name};
        ghost var before := rows;
        UpsertShell(document[n]);
        StaticStayKept(old(rows), before, rows, document, n);
      }
      assert document[..|document|] == document;
    }

    /** `_inventory_config_for_import`: the ids of the sources, None for a missing one. A static
      inventory keeps the configuration of its row. */
    method ConfigFor(data: Exported) returns (r: Option<(Option<Id>, seq<Id>)>)
      requires Valid()
      ensures r.Some? <==> Resolvable(Names(rows), data)
      ensures data.kind.Static? ==> forall i :: i in rows && rows[i].name == data.name ==>
        r == Some((rows[i].sourceId, rows[i].sourceIds))
      ensures r.Some? && data.kind.Filtered? ==> r.value.0.Some? && r.value.0.value in rows
      ensures r.Some? && !data.kind.Static? ==>
        forall inv: Inventory :: inv.sourceId == r.value.0 && inv.sourceIds == r.value.1 ==>
        SourceNames(rows, inv) == CarriedSources(data)
    {
      match data.kind
      case Filtered =>
        if data.source.None? {
          return None;
        }
        var id := Lookup(rows, data.source.value);
        if id.None? {
          return None;
        }
        ResolvedNames(rows, [id.value], [data.source.value]);
        return Some((id, []));
      case Composite =>
        var ids: seq<Id> := [];
        for n := 0 to |data.sources|
          invariant |ids| == n && forall k :: 0 <= k < n ==> ids[k] in rows && rows[ids[k]].name == data.sources[k]
        {
          var id := Lookup(rows, data.sources[n]);
          if id.None? {
            assert data.sources[n] in data.sources;
            return None;
          }
          ids := ids + [id.value];
        }
        forall n | n in data.sources ensures n in Names(rows) {
          var k :| 0 <= k < |data.sources| && data.sources[k] == n;
          assert rows[ids[k]].name == n;
        }
        ResolvedNames(rows, ids, data.sources);
        return Some((None, ids));
      case Static =>
        var id := Lookup(rows, data.name);
        return Some(if id.Some? then (rows[id.value].sourceId, rows[id.value].sourceIds) else (None, []));
      case Plain =>
        return Some((None, []));
    }

    /** One entry of the second pass. */
    method SetSource(data: Exported) returns (ok: bool)
      requires Valid() && data.name in Names(rows)
      modifies this`rows
      ensures Valid() && SameRows(old(rows), rows) && Names(rows) == Names(old(rows))
      ensures OthersKept(old(rows), rows, data.name)
      ensures ok <==> Resolvable(Names(rows), data)
      ensures ok ==> EntrySet(rows, data)
      ensures data.kind.Static? ==> rows == old(rows)
      ensures forall other: Exported :: other.name != data.name && EntrySet(old(rows), other) ==> EntrySet(rows, other)
    {
      var id := Lookup(rows, data.name);
      var config := ConfigFor(data);
      if config.None? {
        return false;
      }
      rows := rows[id.value := rows[id.value].(sourceId := config.value.0, sourceIds := config.value.1)];
      assert data.kind.Static? ==> rows[id.value] == old(rows)[id.value];
      SourceNamesAlike(old(rows), rows, rows[id.value]);
      OthersStaySet(old(rows), rows, data.name);
      SameNames(rows, old(rows));
      return true;
    }

    /** The second pass: every entry gets the ids of its sources. */
    method SetSources(document: seq<Exported>) returns (ok: bool)
      requires Valid() && ListedNames(document) <= Names(rows)
      modifies this`rows
      ensures Valid() && SameRows(old(rows), rows) && Names(rows) == Names(old(rows))
      ensures UnlistedKept(old(rows), rows, document) && StaticKept(old(rows), rows, document)
      ensures ok <==> forall k :: 0 <= k < |document| ==> Resolvable(Names(rows), document[k])
      ensures ok && DistinctEntries(document) ==> forall k :: 0 <= k < |document| ==> EntrySet(rows, document[k])
    {
      for n := 0 to |document|
        invariant Valid() && SameRows(old(rows), rows) && Names(rows) == Names(old(rows))
        invariant UnlistedKept(old(rows), rows, document) && StaticKept(old(rows), rows, document)
        invariant forall k :: 0 <= k < n ==> Resolvable(Names(rows), document[k])
        invariant DistinctEntries(document) ==> forall k :: 0 <= k < n ==> EntrySet(rows, document[k])
      {
        assert document[n].name in ListedNames(document);
        ghost var before := rows;
        ok := SetSource(document[n]);
        UnlistedStayKept(old(rows), before, rows, document, n);
        StaticStayKept(old(rows), before, rows, document, n);
        if !ok {
          return;
        }
      }
      return true;
    }

    /** The inventory part of `preflight_import`. */
    method FindCollision(document: seq<Exported>) returns (found: bool)
      ensures found <==> AnyCollides(rows, document)
      ensures found <==> exists k, i ::
        && 0 <= k < |document| && i in rows && rows[i].name == Strip(document[k].name) != ""
        && (rows[i].kind != Static || document[k].kind != Static)
    {
      for n := 0 to |document|
        invariant forall k :: 0 <= k < n ==> !Collides(rows, document[k])
      {
        if Collides(rows, document[n]) {
          return true;
        }
      }
      return false;
    }

    /** The preflight and both passes; a failure rolls everything back. Whether the other sections
      of the document pass their checks and upserts comes in as `restPasses`. */
    method Import(document: seq<Exported>, replaceExisting: bool, restPasses: bool) returns (ok: bool)
      requires Valid()
      modifies this
      ensures Valid()
      ensures ok <==>
        && restPasses && (replaceExisting || !AnyCollides(old(rows), document))
        && AllResolvable(Names(old(rows)) + ListedNames(document), document)
      ensures !ok ==> rows == old(rows)
      ensures ok && DistinctEntries(document) && Sourced(old(rows)) ==> Sourced(rows)
      ensures ok ==> Names(rows) == Names(old(rows)) + ListedNames(document)
      ensures ok ==> UnlistedKept(old(rows), rows, document)
      ensures ok && !replaceExisting ==> LocalKept(old(rows), rows)
      ensures ok && DistinctEntries(document) ==> AllSet(rows, document)
    {
      if !replaceExisting {
        var found := FindCollision(document);
        if found {
          return false;
        }
      }
      var (savedRows, savedId) := (rows, nextId);
      CreateShells(document);
      ghost var shells := rows;
      ok := SetSources(document);
      if !ok || !restPasses {
        rows, nextId := savedRows, savedId;
        return false;
      }
      forall name | !Lists(document, name) ensures RowsKept(old(rows), rows, name) {
        assert RowsKept(shells, rows, name);
      }
      StaticStay(old(rows), shells, rows, document);
      if !replaceExisting {
        NothingReplaced(old(rows), rows, document);
      }
      if DistinctEntries(document) && Sourced(old(rows)) {
        ImportKeepsSourced(old(rows), rows, document);
      }
    }

    /** `delete_inventory`: refused for an inventory that a project, a step or another inventory
      uses. Deleting never takes a source away from a filtered inventory. */
    method Delete(name: string, usedByProject: bool) returns (ok: bool)
      requires Valid()
      modifies this`rows
      ensures Valid() && (Sourced(old(rows)) ==> Sourced(rows))
      ensures name !in Names(old(rows)) ==> ok && rows == old(rows)
      ensures name in Names(old(rows)) ==>
        exists id ::
          && id in old(rows) && old(rows)[id].name == name && (ok <==> !usedByProject && !InUse(old(rows), id))
          && (InUse(old(rows), id) <==> exists i ::
                && i in old(rows)
                && ((old(rows)[i].kind == Filtered && old(rows)[i].sourceId == Some(id))
                  || (old(rows)[i].kind == Composite && id in old(rows)[i].sourceIds)))
          && rows == if ok then old(rows) - {id} else old(rows)
      ensures forall i :: i in rows && rows[i].kind == Composite ==>
        Resolved(rows, rows[i].sourceIds) == Resolved(old(rows), rows[i].sourceIds)
    {
      var id := Lookup(rows, name);
      if id.None? {
        return true;
      }
      if usedByProject || InUse(rows, id.value) {
        return false;
      }
      rows := rows - {id.value};
      forall i | i in rows && rows[i].kind == Composite
        ensures Resolved(rows, rows[i].sourceIds) == Resolved(old(rows), rows[i].sourceIds)
      {
        ResolvedWithout(old(rows), id.value, rows[i].sourceIds);
      }
      return true;
    }
  }

  /** `inventory_dependency_ids` */
  predicate DependsOn(inv: Inventory, id: Id) {
    match inv.kind
    case Filtered => inv.sourceId == Some(id)
    case Composite => id in inv.sourceIds
    case _ => false
  }

  predicate InUse(table: Table, id: Id) {
    exists i :: i in table && DependsOn(table[i], id)
  }

  /** An entry collides with the existing row of its stripped name, unless both are static. */
  predicate Collides(table: Table, data: Exported) {
    && Strip(data.name) != ""
    && exists i :: i in table && table[i].name == Strip(data.name) && !(data.kind.Static? && table[i].kind.Static?)
  }

  ghost predicate AnyCollides(table: Table, document: seq<Exported>) {
    exists k :: 0 <= k < |document| && Collides(table, document[k])
  }

  ghost predicate AllResolvable(names: set<string>, document: seq<Exported>) {
    forall k :: 0 <= k < |document| ==> Resolvable(names, document[k])
  }

  ghost predicate AllSet(table: Table, document: seq<Exported>) {
    forall k :: 0 <= k < |document| ==> EntrySet(table, document[k]) && KindSet(table, document[k])
  }

  ghost predicate KindSet(table: Table, data: Exported) {
    forall i :: i in table && table[i].name == data.name ==> table[i].kind == data.kind
  }

  /** The same ids, with the same names and kinds. */
  ghost predicate SameRows(before: Table, after: Table) {
    && before.Keys == after.Keys
    && forall i :: i in before ==> before[i].name == after[i].name && before[i].kind == after[i].kind
  }

  ghost predicate OthersKept(before: Table, after: Table, name: string) {
    forall i :: i in before && before[i].name != name ==> i in after && after[i] == before[i]
  }

  ghost predicate RowsKept(before: Table, after: Table, name: string) {
    forall i :: i in before && before[i].name == name ==> i in after && after[i] == before[i]
  }

  /** The row of an entry that is not static resolves to the source names that it carries, and that
    of a filtered one has an existing source. */
  ghost predicate EntrySet(table: Table, data: Exported) {
    forall i :: i in table && table[i].name == data.name && !data.kind.Static? ==>
      && SourceNames(table, table[i]) == CarriedSources(data)
      && (data.kind.Filtered? ==> HasSource(table, table[i]))
  }

  lemma OthersStaySet(before: Table, after: Table, changed: string)
    requires SameRows(before, after) && OthersKept(before, after, changed)
    ensures forall other: Exported :: other.name != changed && EntrySet(before, other) ==> EntrySet(after, other)
  {
    forall other: Exported | other.name != changed && EntrySet(before, other) ensures EntrySet(after, other) {
      forall i | i in after && after[i].name == other.name
        ensures SourceNames(after, after[i]) == SourceNames(before, before[i])
      {
        SourceNamesAlike(before, after, after[i]);
      }
    }
  }

  predicate HasSource(table: Table, inv: Inventory) {
    inv.sourceId.Some? && inv.sourceId.value in table
  }

  /** No filtered inventory has lost its source. */
  ghost predicate Sourced(table: Table) {
    forall i :: i in table && table[i].kind.Filtered? ==> HasSource(table, table[i])
  }

  lemma ImportKeepsSourced(before: Table, after: Table, document: seq<Exported>)
    requires Sourced(before) && before.Keys <= after.Keys
    requires UnlistedKept(before, after, document)
    requires Names(after) == Names(before) + ListedNames(document) && UniqueNames(after)
    requires AllSet(after, document)
    ensures Sourced(after)
  {
    forall i | i in after && after[i].kind.Filtered? ensures HasSource(after, after[i]) {
      if k :| 0 <= k < |document| && document[k].name == after[i].name {
        assert EntrySet(after, document[k]) && KindSet(after, document[k]);
      } else {
        assert after[i].name in Names(before);
        var j :| j in before && before[j].name == after[i].name;
        assert RowsKept(before, after, after[i].name);
        assert after[j] == before[j] && j == i;
      }
    }
  }

  /** The rows of names that are not listed stay as they were. */
  ghost predicate UnlistedKept(before: Table, after: Table, document: seq<Exported>) {
    forall name :: !Lists(document, name) ==> RowsKept(before, after, name)
  }

  lemma UnlistedStayKept(first: Table, before: Table, after: Table, document: seq<Exported>, n: nat)
    requires UnlistedKept(first, before, document) && n < |document| && OthersKept(before, after, document[n].name)
    ensures UnlistedKept(first, after, document)
  {
    forall name | !Lists(document, name) ensures RowsKept(first, after, name) {
      assert name != document[n].name && RowsKept(first, before, name);
    }
  }

  /** A static row that only static entries list. */
  ghost predicate ListedAsStatic(document: seq<Exported>, inv: Inventory) {
    inv.kind.Static? && forall k :: 0 <= k < |document| && document[k].name == inv.name ==> document[k].kind.Static?
  }

  ghost predicate StaticKept(before: Table, after: Table, document: seq<Exported>) {
    forall i :: i in before && ListedAsStatic(document, before[i]) ==> i in after && after[i] == before[i]
  }

  lemma StaticStayKept(first: Table, before: Table, after: Table, document: seq<Exported>, n: nat)
    requires StaticKept(first, before, document) && n < |document| && OthersKept(before, after, document[n].name)
    requires document[n].kind.Static? ==>
      forall i :: i in before && before[i].name == document[n].name && before[i].kind.Static? ==>
        i in after && after[i] == before[i]
    ensures StaticKept(first, after, document)
  {
  }

  lemma StaticStay(first: Table, before: Table, after: Table, document: seq<Exported>)
    requires StaticKept(first, before, document) && StaticKept(before, after, document)
    ensures StaticKept(first, after, document)
  {
  }

  /** Every local row with a visible name and no blanks around it is there, unchanged. */
  ghost predicate LocalKept(before: Table, after: Table) {
    forall i :: i in before && before[i].name != "" && Strip(before[i].name) == before[i].name ==>
      i in after && after[i] == before[i]
  }

  /** Where nothing collides, no local row is replaced. */
  lemma NothingReplaced(before: Table, after: Table, document: seq<Exported>)
    requires !AnyCollides(before, document)
    requires StaticKept(before, after, document)
    requires UnlistedKept(before, after, document)
    ensures LocalKept(before, after)
  {
    forall i | i in before && before[i].name != "" && Strip(before[i].name) == before[i].name
      ensures i in after && after[i] == before[i]
    {
      if Lists(document, before[i].name) {
        forall k | 0 <= k < |document| && document[k].name == before[i].name
          ensures document[k].kind.Static? && before[i].kind.Static?
        {
          assert !Collides(before, document[k]);
        }
        assert ListedAsStatic(document, before[i]);
      } else {
        assert RowsKept(before, after, before[i].name);
      }
    }
  }

  /** The preflight looks for stripped names, the upsert for names as they are: a local static
    inventory with a blank around its name can be replaced unseen. */
  lemma PaddedNameNotSeen() returns (table: Table, document: seq<Exported>)
    ensures UniqueNames(table) && table == map[0 := Inventory("p ", Static, None, [])]
    ensures document == [Exported("p ", Composite, None, [])] && !AnyCollides(table, document)
    ensures AllResolvable(Names(table) + ListedNames(document), document)
  {
    table, document := map[0 := Inventory("p ", Static, None, [])], [Exported("p ", Composite, None, [])];
    assert "p "[..1] == "p" && IsSpace("p "[1]);
    StripIff("p ");
  }

  lemma SameNames(table: Table, other: Table)
    requires table.Keys == other.Keys && forall i :: i in table ==> table[i].name == other[i].name
    ensures Names(table) == Names(other)
  {
  }

  lemma SourceNamesAlike(table: Table, other: Table, inv: Inventory)
    requires table.Keys == other.Keys && forall i :: i in table ==> table[i].name == other[i].name
    ensures SourceNames(table, inv) == SourceNames(other, inv)
  {
    ResolvedAlike(table, other, inv.sourceIds);
    if inv.sourceId.Some? {
      ResolvedAlike(table, other, [inv.sourceId.value]);
    }
  }

  // ----- Export, then import -------------------------------------------------------------------

  lemma ListedSource(table: Table, names: set<string>, document: seq<Exported>, i: Id, source: string)
    requires UniqueNames(table) && ClosedUnderSources(table, names) && IsExport(table, names, document)
    requires i in table && table[i].name in names && source in SourceNames(table, table[i])
    ensures source in ListedNames(document)
  {
    assert IsSource(table, source, table[i].name);
    SourcesExist(table);
    var j :| j in table && table[j].name == source;
    assert ExportedAs(table, table[j]) in document;
  }

  lemma ListedResolvableIff(table: Table, names: set<string>, document: seq<Exported>, known: set<string>, i: Id)
    requires UniqueNames(table) && ClosedUnderSources(table, names) && IsExport(table, names, document)
    requires i in table && table[i].name in names && ListedNames(document) <= known
    ensures Resolvable(known, ExportedAs(table, table[i])) <==> !LostSource(table, table[i])
  {
    forall n | n in SourceNames(table, table[i]) ensures n in known {
      ListedSource(table, names, document, i, n);
    }
    ResolvableIff(table, table[i], known);
  }

  lemma ResolvableIff(table: Table, inv: Inventory, known: set<string>)
    requires forall n :: n in SourceNames(table, inv) ==> n in known
    ensures Resolvable(known, ExportedAs(table, inv)) <==> !LostSource(table, inv)
  {
    var sources := SourceNames(table, inv);
    assert sources != [] ==> sources[0] in sources;
  }

  /** A filtered inventory whose source is gone: it is exported without one. */
  predicate LostSource(table: Table, inv: Inventory) {
    inv.kind.Filtered? && SourceNames(table, inv) == []
  }

  ghost predicate NoneLost(table: Table, names: set<string>) {
    forall i :: i in table && table[i].name in names ==> !LostSource(table, table[i])
  }

  /** For an export closed under sources, in whatever order, the import into any destination
    succeeds exactly when no exported filtered inventory had lost its source. */
  lemma ClosedExportImportsIff(table: Table, names: set<string>, document: seq<Exported>, destination: set<string>)
    requires UniqueNames(table) && ClosedUnderSources(table, names) && IsExport(table, names, document)
    ensures AllResolvable(destination + ListedNames(document), document)
       <==> NoneLost(table, names)
  {
    var known := destination + ListedNames(document);
    if AllResolvable(known, document) {
      forall i | i in table && table[i].name in names ensures !LostSource(table, table[i]) {
        assert ExportedAs(table, table[i]) in document;
        ListedResolvableIff(table, names, document, known, i);
      }
    }
    if NoneLost(table, names) {
      forall k | 0 <= k < |document| ensures Resolvable(known, document[k]) {
        assert IsEntry(table, names, document[k]);
        var i :| i in table && table[i].name in names && document[k] == ExportedAs(table, table[i]);
        ListedResolvableIff(table, names, document, known, i);
      }
    }
  }

  /** With every filtered inventory on an existing source, as deletions and imports leave it, none
    is lost. */
  lemma SourcedLosesNone(table: Table)
    requires Sourced(table)
    ensures forall i :: i in table ==> !LostSource(table, table[i])
  {
    forall i | i in table && table[i].kind.Filtered? ensures SourceNames(table, table[i]) != [] {
      assert HasSource(table, table[i]);
      assert Resolved(table, [table[i].sourceId.value]) == [table[table[i].sourceId.value].name] + Resolved(table, []);
    }
  }

  /** A filtered inventory on a source id that no row has: its export is refused everywhere. */
  lemma DanglingSourceRefused(known: set<string>) returns (table: Table, document: seq<Exported>)
    ensures UniqueNames(table) && LeastClosed(table, ["f"], {"f"}) && IsExport(table, {"f"}, document)
    ensures |document| == 1
    ensures document[0] == Exported("f", Filtered, None, []) && !Resolvable(known, document[0])
  {
    var inv := Inventory("f", Filtered, Some(7), []);
    table, document := map[0 := inv], [Exported("f", Filtered, None, [])];
    assert [7 as nat][1..] == [] && Resolved(table, [7]) == Resolved(table, []) == [];
    assert IsEntry(table, {"f"}, document[0]) by {
      assert 0 in table && table[0].name in {"f"} && document[0] == ExportedAs(table, table[0]);
    }
  }

  /** The entries of the selected inventories, one each. */
  method ExportNamed(table: Table, names: set<string>) returns (document: seq<Exported>)
    requires UniqueNames(table)
    ensures IsExport(table, names, document) && DistinctEntries(document)
  {
    document := [];
    var todo := table.Keys;
    while todo != {}
      invariant todo <= table.Keys && DistinctEntries(document)
      invariant forall k :: 0 <= k < |document| ==> IsEntry(table, names, document[k])
      invariant forall i :: i in table && i !in todo && table[i].name in names ==>
        ExportedAs(table, table[i]) in document
      invariant forall i, k :: i in todo && 0 <= k < |document| ==> document[k].name != table[i].name
    {
      var id :| id in todo;
      todo := todo - {id};
      if table[id].name in names {
        assert IsEntry(table, names, ExportedAs(table, table[id]));
        document := document + [ExportedAs(table, table[id])];
      }
    }
  }

  /** The row of an inventory at the destination has its kind and names the same sources. */
  ghost predicate Arrived(table: Table, inv: Inventory, rows: Table) {
    && inv.name in Names(rows)
    && forall j :: j in rows && rows[j].name == inv.name ==>
         && rows[j].kind == inv.kind
         && (inv.kind.Composite? ==> SourceNames(rows, rows[j]) == SourceNames(table, inv))
         && (inv.kind.Filtered? ==>
           SourceNames(table, inv) != [] && SourceNames(rows, rows[j]) == SourceNames(table, inv)[..1])
  }

  ghost predicate AllArrive(table: Table, names: set<string>, rows: Table) {
    forall i :: i in table && table[i].name in names ==> Arrived(table, table[i], rows)
  }

  ghost predicate OutsideKept(before: Table, after: Table, names: set<string>) {
    forall name :: name !in names ==> RowsKept(before, after, name)
  }

  /** The preflight lets the inventories of an export pass. */
  ghost predicate NoneCollides(table: Table, names: set<string>, rows: Table) {
    forall i :: i in table && table[i].name in names ==> !Collides(rows, ExportedAs(table, table[i]))
  }

  lemma NoneCollidesIff(table: Table, names: set<string>, document: seq<Exported>, rows: Table)
    requires IsExport(table, names, document)
    ensures NoneCollides(table, names, rows) <==> !AnyCollides(rows, document)
  {
    forall k | 0 <= k < |document| && NoneCollides(table, names, rows) ensures !Collides(rows, document[k]) {
      assert IsEntry(table, names, document[k]);
    }
    if !AnyCollides(rows, document) {
      forall i | i in table && table[i].name in names ensures !Collides(rows, ExportedAs(table, table[i])) {
        assert ExportedAs(table, table[i]) in document;
      }
    }
  }

  /** The inventories of an export: what the worklist collects, or all. */
  method Select(table: Table, direct: seq<string>, everything: bool) returns (names: set<string>)
    requires UniqueNames(table)
    ensures if everything then names == Names(table) else LeastClosed(table, direct, names)
    ensures ClosedUnderSources(table, names)
  {
    if everything {
      SourcesExist(table);
      return Names(table);
    }
    names := CollectInventories(table, direct);
  }

  /** Export from one installation what the worklist selects, or everything, and import it into
    another: with a document that passes otherwise it succeeds exactly when nothing collides, or is
    to be replaced, and no selected filtered inventory had lost its source. Then every selected
    inventory arrives with its sources and nothing else changes. */
  method Transfer(table: Table, direct: seq<string>, everything: bool, destination: Destination,
                  replaceExisting: bool, restPasses: bool)
    returns (ok: bool, ghost names: set<string>)
    requires UniqueNames(table) && destination.Valid()
    modifies destination
    ensures if everything then names == Names(table) else LeastClosed(table, direct, names)
    ensures ok <==>
      && restPasses && (replaceExisting || NoneCollides(table, names, old(destination.rows)))
      && NoneLost(table, names)
    ensures ok && Sourced(old(destination.rows)) ==> Sourced(destination.rows)
    ensures ok ==> AllArrive(table, names, destination.rows)
    ensures ok ==> OutsideKept(old(destination.rows), destination.rows, names)
    ensures ok && !replaceExisting ==> LocalKept(old(destination.rows), destination.rows)
    ensures !ok ==> destination.rows == old(destination.rows)
  {
    var selected := Select(table, direct, everything);
    names := selected;
    var document := ExportNamed(table, selected);
    ok := ImportExported(table, selected, document, destination, replaceExisting, restPasses);
  }

  /** The import of an exported document. */
  method ImportExported(ghost table: Table, ghost names: set<string>, document: seq<Exported>,
                        destination: Destination, replaceExisting: bool, restPasses: bool) returns (ok: bool)
    requires UniqueNames(table) && ClosedUnderSources(table, names) && destination.Valid()
    requires IsExport(table, names, document) && DistinctEntries(document)
    modifies destination
    ensures ok <==>
      && restPasses && (replaceExisting || NoneCollides(table, names, old(destination.rows)))
      && NoneLost(table, names)
    ensures ok && Sourced(old(destination.rows)) ==> Sourced(destination.rows)
    ensures ok ==> AllArrive(table, names, destination.rows)
    ensures ok ==> OutsideKept(old(destination.rows), destination.rows, names)
    ensures ok && !replaceExisting ==> LocalKept(old(destination.rows), destination.rows)
    ensures !ok ==> destination.rows == old(destination.rows)
  {
    ClosedExportImportsIff(table, names, document, Names(destination.rows));
    NoneCollidesIff(table, names, document, destination.rows);
    ok := destination.Import(document, replaceExisting, restPasses);
    if ok {
      Transferred(table, names, document, old(destination.rows), destination.rows);
    }
  }

  lemma Transferred(table: Table, names: set<string>, document: seq<Exported>, before: Table, rows: Table)
    requires IsExport(table, names, document) && ListedNames(document) <= Names(rows)
    requires AllSet(rows, document)
    requires NoneLost(table, names)
    requires UnlistedKept(before, rows, document)
    ensures AllArrive(table, names, rows) && OutsideKept(before, rows, names)
  {
    AllArrived(table, names, document, rows);
    NothingElseListed(table, names, document);
  }

  lemma AllArrived(table: Table, names: set<string>, document: seq<Exported>, rows: Table)
    requires IsExport(table, names, document) && ListedNames(document) <= Names(rows)
    requires AllSet(rows, document)
    requires NoneLost(table, names)
    ensures AllArrive(table, names, rows)
  {
    forall i | i in table && table[i].name in names ensures Arrived(table, table[i], rows) {
      assert ExportedAs(table, table[i]) in document;
      var k :| 0 <= k < |document| && document[k] == ExportedAs(table, table[i]);
      assert document[k].name in ListedNames(document);
      EntryArrived(table, table[i], rows, document[k]);
    }
  }

  lemma EntryArrived(table: Table, inv: Inventory, rows: Table, data: Exported)
    requires data == ExportedAs(table, inv) && inv.name in Names(rows) && !LostSource(table, inv)
    requires EntrySet(rows, data) && KindSet(rows, data)
    ensures Arrived(table, inv, rows)
  {
    var sources := SourceNames(table, inv);
    assert sources != [] ==> [sources[0]] == sources[..1];
  }

  lemma NothingElseListed(table: Table, names: set<string>, document: seq<Exported>)
    requires IsExport(table, names, document)
    ensures forall name :: name !in names ==> !Lists(document, name)
  {
    forall name | Lists(document, name) ensures name in names {
      var k :| 0 <= k < |document| && document[k].name == name;
      assert IsEntry(table, names, document[k]);
    }
  }

  /** A row that the import left behind is exported again as the same entry. */
  lemma ExportedAgain(table: Table, inv: Inventory, destination: Table, row: Inventory)
    requires Resolvable(Names(destination), ExportedAs(table, inv))
    requires row.name == inv.name && row.kind == inv.kind
    requires !inv.kind.Static? ==> SourceNames(destination, row) == CarriedSources(ExportedAs(table, inv))
    ensures ExportedAs(destination, row) == ExportedAs(table, inv)
  {
  }
}
