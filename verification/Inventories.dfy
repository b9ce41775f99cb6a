/** Canonical inventories: host variables and groups, and the hostnames they mention. */
module Inventories {
  import opened Values

  /** `hostvars` is the `_meta.hostvars` mapping, `groups` every other top-level key. */
  datatype Inventory = Inventory(hostvars: map<string, Value>, groups: map<string, Value>)

  /** The hosts of one group: the strings in its host list, nothing when there is no such list. */
  function GroupHosts(group: Value): set<string> {
    if group.Object? && "hosts" in group.fields && group.fields["hosts"].Array? then
      TextItems(group.fields["hosts"].items)
    else {}
  }

  function TextItems(items: seq<Value>): set<string> {
    set x | x in items && x.Leaf? && x.scalar.Text? :: x.scalar.s
  }

  /** `_all_group_hosts` */
  function AllGroupHosts(groups: map<string, Value>): set<string> {
    set g, h | g in groups && h in GroupHosts(groups[g]) :: h
  }

  /** Every host with variables or in a group. */
  function AllHosts(inv: Inventory): set<string> {
    inv.hostvars.Keys + AllGroupHosts(inv.groups)
  }

  /** `_inventory_hostnames`: the hosts with a non-empty name. */
  function Hosts(inv: Inventory): set<string> {
    AllHosts(inv) - {""}
  }
}
