/** What a successful composition of inventories guarantees, and when it succeeds. */
module CompositionLaws {
  import opened Options
  import opened Values
  import opened Inventories
  import opened Merge
  import opened Compose

  // ----- When it succeeds --------------------------------------------------------------------

  /** Two sources agree on every shared host variable and group entry. */
  predicate CompatibleSources(a: Inventory, b: Inventory) {
    && (forall h :: h in a.hostvars && h in b.hostvars ==> Compatible(a.hostvars[h], b.hostvars[h]))
    && (forall g :: g in a.groups && g in b.groups ==> Compatible(a.groups[g], b.groups[g]))
  }

  lemma EncodedCompatible(a: Inventory, b: Inventory)
    ensures Compatible(Encode(a), Encode(b)) <==> CompatibleSources(a, b)
  {
    var (x, y) := (Encode(a).fields, Encode(b).fields);
    assert Compatible(x["hostvars"], y["hostvars"]) <==>
      forall h :: h in a.hostvars && h in b.hostvars ==> Compatible(a.hostvars[h], b.hostvars[h]);
    assert Compatible(x["groups"], y["groups"]) <==>
      forall g :: g in a.groups && g in b.groups ==> Compatible(a.groups[g], b.groups[g]);
  }

  lemma NothingIsNeutral(sources: seq<Inventory>)
    requires sources != []
    ensures MergeAll(Encode(NOTHING), Encoded(sources)) == MergeSeq(Encoded(sources))
  {
    var inv := sources[0];
    assert FieldsMerged(map[], inv.hostvars, inv.hostvars) && FieldsMerged(map[], inv.groups, inv.groups);
    MergeOfSections(NOTHING, inv, inv);
  }

  /** Two or more well-formed sources compose exactly when every two of them are compatible. */
  lemma ComposeSucceedsIff(sources: seq<Inventory>)
    requires |sources| >= 2
    ensures Composed(sources).Some? <==>
      && (forall i :: 0 <= i < |sources| ==> WellFormed(sources[i]))
      && (forall i, j :: 0 <= i < |sources| && 0 <= j < |sources| ==> CompatibleSources(sources[i], sources[j]))
  {
    var values := Encoded(sources);
    NothingIsNeutral(sources);
    MergeSeqSucceedsIff(values);
    forall i, j | 0 <= i < |sources| && 0 <= j < |sources|
      ensures Compatible(values[i], values[j]) <==> CompatibleSources(sources[i], sources[j])
    {
      EncodedCompatible(sources[i], sources[j]);
    }
  }

  /** An entry that is no object, for a host or for a group, fails the whole composition. */
  lemma ComposedEntries(sources: seq<Inventory>, i: nat)
    requires Composed(sources).Some? && i < |sources|
    ensures forall h :: h in sources[i].hostvars ==> sources[i].hostvars[h].Object?
    ensures forall g :: g in sources[i].groups ==> sources[i].groups[g].Object?
  {
    ComposeSucceedsIff(sources);
  }

  /** Two sources of objects alone that agree on all shared entries compose, in both orders. */
  lemma AgreeingSourcesCompose(a: Inventory, b: Inventory)
    requires forall h :: h in a.hostvars ==> a.hostvars[h].Object?
    requires forall h :: h in b.hostvars ==> b.hostvars[h].Object?
    requires forall g :: g in a.groups ==> a.groups[g].Object?
    requires forall g :: g in b.groups ==> b.groups[g].Object?
    requires CompatibleSources(a, b) && CompatibleSources(b, a)
    ensures Composed([a, b]).Some? && Composed([b, a]).Some?
  {
    PairComposes(a, b);
    PairComposes(b, a);
  }

  // ----- What the merged inventory holds -----------------------------------------------------

  /** The inventory that a composition completes. */
  ghost function Merged(sources: seq<Inventory>): Inventory
    requires Composed(sources).Some?
  {
    MergedIsInventory(Encode(NOTHING), Encoded(sources));
    Decode(MergeAll(Encode(NOTHING), Encoded(sources)).value)
  }

  lemma MergedEncoded(sources: seq<Inventory>)
    requires Composed(sources).Some?
    ensures Composed(sources) == Some(Completed(Merged(sources)))
    ensures MergeSeq(Encoded(sources)) == Some(Encode(Merged(sources)))
  {
    MergedIsInventory(Encode(NOTHING), Encoded(sources));
    NothingIsNeutral(sources);
    EncodeDecode(MergeAll(Encode(NOTHING), Encoded(sources)).value);
  }

  lemma EncodeDecode(v: Value)
    requires IsInventory(v)
    ensures Encode(Decode(v)) == v
  {
    assert Encode(Decode(v)).fields == v.fields;
  }

  lemma AbsorbsSections(hi: Inventory, lo: Inventory)
    ensures Absorbs(Encode(hi), Encode(lo)) <==>
      Absorbs(Object(hi.hostvars), Object(lo.hostvars)) && Absorbs(Object(hi.groups), Object(lo.groups))
  {
    var (x, y) := (Encode(hi).fields, Encode(lo).fields);
    assert "hostvars" in y && "groups" in y;
  }

  lemma GroupHostsGrow(hi: Value, lo: Value)
    requires Absorbs(hi, lo)
    ensures GroupHosts(lo) <= GroupHosts(hi)
  {
    if lo.Object? && "hosts" in lo.fields && lo.fields["hosts"].Array? {
      assert Absorbs(hi.fields["hosts"], lo.fields["hosts"]);
    }
  }

  lemma GroupsHostsGrow(hi: map<string, Value>, lo: map<string, Value>)
    requires Absorbs(Object(hi), Object(lo))
    ensures AllGroupHosts(lo) <= AllGroupHosts(hi)
  {
    forall h | h in AllGroupHosts(lo) ensures h in AllGroupHosts(hi) {
      var g :| g in lo && h in GroupHosts(lo[g]);
      GroupHostsGrow(hi[g], lo[g]);
    }
  }

  // ----- The order of the sources ------------------------------------------------------------

  lemma WithHostsAlike(a: map<string, Value>, b: map<string, Value>, hosts: set<string>)
    requires a.Keys == b.Keys
    ensures Absorbs(Object(a), Object(b)) ==> Absorbs(Object(WithHosts(a, hosts)), Object(WithHosts(b, hosts)))
    ensures Rearranged(Object(WithHosts(a, hosts)), Object(WithHosts(b, hosts))) <==> Rearranged(Object(a), Object(b))
  {
    var (c, d) := (WithHosts(a, hosts), WithHosts(b, hosts));
    assert forall h :: h in a ==> h in c && c[h] == a[h] && d[h] == b[h];
    assert forall h :: h in c && h !in a ==> c[h] == d[h] == Object(map[]);
  }

  lemma WithAllAlike(a: map<string, Value>, b: map<string, Value>)
    requires a.Keys == b.Keys
    ensures Absorbs(Object(a), Object(b)) ==> Absorbs(Object(WithAll(a)), Object(WithAll(b)))
    ensures Rearranged(Object(WithAll(a)), Object(WithAll(b))) <==> Rearranged(Object(a), Object(b))
  {
    var (c, d) := (WithAll(a), WithAll(b));
    assert forall g :: g in a ==> g in c && c[g] == a[g] && d[g] == b[g];
    if "all" !in a {
      AbsorbsReflexive(c["all"]);
      RearrangedReflexive(c["all"]);
    }
  }

  lemma RearrangedSections(a: Inventory, b: Inventory)
    ensures Rearranged(Encode(a), Encode(b)) <==>
      Rearranged(Object(a.hostvars), Object(b.hostvars)) && Rearranged(Object(a.groups), Object(b.groups))
  {
    var (x, y) := (Encode(a).fields, Encode(b).fields);
    assert "hostvars" in x && "groups" in x;
  }

  /** Completing two inventories with the same content keeps, and hides, no rearrangement. */
  lemma CompletedAlike(a: Inventory, b: Inventory)
    requires Absorbs(Encode(a), Encode(b)) && Absorbs(Encode(b), Encode(a))
    ensures Absorbs(Encode(Completed(a)), Encode(Completed(b)))
    ensures Rearranged(Encode(Completed(a)), Encode(Completed(b))) <==> Rearranged(Encode(a), Encode(b))
  {
    SameSections(a, b);
    var hosts := AllGroupHosts(a.groups);
    var c := Inventory(WithHosts(a.hostvars, hosts), WithAll(a.groups));
    var d := Inventory(WithHosts(b.hostvars, hosts), WithAll(b.groups));
    assert c == Completed(a) && d == Completed(b);
    WithHostsAlike(a.hostvars, b.hostvars, hosts);
    WithAllAlike(a.groups, b.groups);
    AbsorbsSections(c, d);
    RearrangedSections(a, b);
    RearrangedSections(c, d);
  }

  lemma SameSections(a: Inventory, b: Inventory)
    requires Absorbs(Encode(a), Encode(b)) && Absorbs(Encode(b), Encode(a))
    ensures a.hostvars.Keys == b.hostvars.Keys && a.groups.Keys == b.groups.Keys
    ensures AllGroupHosts(a.groups) == AllGroupHosts(b.groups)
    ensures Absorbs(Object(a.hostvars), Object(b.hostvars)) && Absorbs(Object(a.groups), Object(b.groups))
  {
    AbsorbsSections(a, b);
    AbsorbsSections(b, a);
    GroupsHostsGrow(a.groups, b.groups);
    GroupsHostsGrow(b.groups, a.groups);
  }

  lemma Cancel<T>(a: multiset<T>, b: multiset<T>, x: T)
    requires a + multiset{x} == b + multiset{x}
    ensures a == b
  {
    assert a == (a + multiset{x}) - multiset{x};
    assert b == (b + multiset{x}) - multiset{x};
  }

  lemma EncodedConcat(a: seq<Inventory>, b: seq<Inventory>)
    ensures Encoded(a + b) == Encoded(a) + Encoded(b)
  {
  }

  lemma EncodedWithout(sources: seq<Inventory>, k: nat)
    requires k < |sources|
    ensures multiset(Encoded(sources))
         == multiset(Encoded(sources[..k] + sources[k + 1..])) + multiset{Encode(sources[k])}
  {
    EncodedConcat(sources[..k], sources[k + 1..]);
    assert Encoded(sources) == Encoded(sources[..k]) + [Encode(sources[k])] + Encoded(sources[k + 1..]);
  }

  lemma EncodedReordering(sources: seq<Inventory>, others: seq<Inventory>)
    requires multiset(sources) == multiset(others)
    ensures multiset(Encoded(sources)) == multiset(Encoded(others))
    decreases |sources|
  {
    if sources == [] {
      assert |others| == |multiset(others)| == 0;
    } else {
      assert sources[0] in multiset(others);
      var k, rest := Without(others, sources[0]);
      assert sources == [sources[0]] + sources[1..];
      Cancel(multiset(sources[1..]), multiset(rest), sources[0]);
      EncodedReordering(sources[1..], rest);
      EncodedWithout(sources, 0);
      EncodedWithout(others, k);
      assert sources[..0] + sources[0 + 1..] == sources[1..];
    }
  }

  lemma ComposedIff(sources: seq<Inventory>)
    requires |sources| >= 2
    ensures Composed(sources).Some? <==>
      (forall s :: s in sources ==> WellFormed(s)) && MergeSeq(Encoded(sources)).Some?
  {
    NothingIsNeutral(sources);
  }

  lemma SameItems<T>(s: seq<T>, t: seq<T>)
    requires multiset(s) == multiset(t)
    ensures |s| == |t| && forall x :: x in s <==> x in t
  {
    assert |s| == |multiset(s)| == |t|;
    assert forall x :: x in s <==> x in multiset(s);
    assert forall x :: x in t <==> x in multiset(t);
  }

  /** Any two orders of the same sources succeed or fail alike, and then hold the same content. */
  lemma ComposeOrder(sources: seq<Inventory>, others: seq<Inventory>)
    requires |sources| >= 2 && multiset(sources) == multiset(others)
    ensures Composed(sources).Some? <==> Composed(others).Some?
    ensures Composed(sources).Some? ==>
      && Absorbs(Encode(Composed(sources).value), Encode(Composed(others).value))
      && Absorbs(Encode(Composed(others).value), Encode(Composed(sources).value))
      && (Rearranged(Encode(Composed(sources).value), Encode(Composed(others).value))
          <==> !OrderShows(Encoded(sources), Encoded(others)))
  {
    SameItems(sources, others);
    ComposedIff(sources);
    ComposedIff(others);
    EncodedReordering(sources, others);
    MergeSeqOrder(Encoded(sources), Encoded(others));
    if Composed(sources).Some? {
      MergedEncoded(sources);
      MergedEncoded(others);
      CompletedAlike(Merged(sources), Merged(others));
      CompletedAlike(Merged(others), Merged(sources));
    }
  }

  ghost predicate SameUpToListOrder(a: Option<Inventory>, b: Option<Inventory>) {
    a.Some? && b.Some? && Rearranged(Encode(a.value), Encode(b.value))
  }

  /** Every permutation of the sources composes to the same up to the order of list items. */
  ghost predicate AllOrdersAlike(sources: seq<Inventory>) {
    forall others :: multiset(sources) == multiset(others) ==> SameUpToListOrder(Composed(sources), Composed(others))
  }

  /** The order of the sources shows in nothing but the order of list items exactly when every
    two sources agree on how often list items are repeated. */
  lemma ComposeOrderNeverShowsIff(sources: seq<Inventory>)
    requires Composed(sources).Some?
    ensures AllOrdersAlike(sources)
       <==> PairwiseRepeatsAgree(Encoded(sources))
  {
    MergedEncoded(sources);
    OrderNeverShowsIff(Encoded(sources));
    if AllOrdersAlike(sources) {
      forall ws ensures !OrderShows(Encoded(sources), ws) {
        if OrderShows(Encoded(sources), ws) {
          var others := DecodedReordering(sources, ws);
          ComposeOrder(sources, others);
        }
      }
    }
    if PairwiseRepeatsAgree(Encoded(sources)) {
      forall others | multiset(sources) == multiset(others)
        ensures SameUpToListOrder(Composed(sources), Composed(others))
      {
        ComposeOrder(sources, others);
        assert !OrderShows(Encoded(sources), Encoded(others));
      }
    }
  }

  /** Two sources that repeat the item of a list differently: their two orders compose to values
    that are no rearrangements of each other. */
  lemma ComposeOrderShows() returns (a: Inventory, b: Inventory)
    ensures WellFormed(a) && WellFormed(b) && Composed([a, b]).Some? && Composed([b, a]).Some?
    ensures !SameUpToListOrder(Composed([a, b]), Composed([b, a]))
  {
    var (twice, once) := (Array([Leaf(Null), Leaf(Null)]), Array([Leaf(Null)]));
    a := Inventory(map["h" := Object(map["l" := twice])], map[]);
    b := Inventory(map["h" := Object(map["l" := once])], map[]);
    RepeatsOfOneHost(a, b, "h", "l", twice, once);
    OrderOfPairShows(a, b);
  }

  lemma OrderOfPairShows(a: Inventory, b: Inventory)
    requires WellFormed(a) && WellFormed(b) && CompatibleSources(a, b) && CompatibleSources(b, a)
    requires !RepeatsAgree(Encode(a), Encode(b))
    ensures Composed([a, b]).Some? && Composed([b, a]).Some?
    ensures !SameUpToListOrder(Composed([a, b]), Composed([b, a]))
  {
    PairComposes(a, b);
    PairComposes(b, a);
    var others := OrderOfSomeShows([a, b], 0, 1);
    ReorderedPair(a, b, others);
    RearrangedReflexive(Encode(Composed([a, b]).value));
  }

  lemma PairComposes(a: Inventory, b: Inventory)
    requires WellFormed(a) && WellFormed(b) && CompatibleSources(a, b) && CompatibleSources(b, a)
    ensures Composed([a, b]).Some?
  {
    var sources := [a, b];
    forall i | 0 <= i < 2 ensures CompatibleSources(sources[i], sources[i]) {
      CompatibleReflexive(Encode(sources[i]));
      EncodedCompatible(sources[i], sources[i]);
    }
    ComposeSucceedsIff(sources);
  }

  lemma OrderOfSomeShows(sources: seq<Inventory>, i: nat, j: nat) returns (others: seq<Inventory>)
    requires Composed(sources).Some? && i < |sources| && j < |sources|
    requires !RepeatsAgree(Encode(sources[i]), Encode(sources[j]))
    ensures multiset(sources) == multiset(others) && !SameUpToListOrder(Composed(sources), Composed(others))
  {
    ComposeOrderNeverShowsIff(sources);
    assert Encode(sources[i]) == Encoded(sources)[i] && Encode(sources[j]) == Encoded(sources)[j];
    assert !PairwiseRepeatsAgree(Encoded(sources));
    others :| multiset(sources) == multiset(others) && !SameUpToListOrder(Composed(sources), Composed(others));
  }

  lemma RepeatsOfOneHost(a: Inventory, b: Inventory, host: string, key: string, x: Value, y: Value)
    requires a == Inventory(map[host := Object(map[key := x])], map[])
    requires b == Inventory(map[host := Object(map[key := y])], map[])
    requires x == Array([Leaf(Null), Leaf(Null)]) && y == Array([Leaf(Null)])
    ensures CompatibleSources(a, b) && CompatibleSources(b, a) && !RepeatsAgree(Encode(a), Encode(b))
  {
    assert x.items[0] == Leaf(Null) && multiset(x.items)[Leaf(Null)] == 2 && multiset(y.items)[Leaf(Null)] == 1;
    RepeatsUnderKey(map[key := x], map[key := y], key);
    RepeatsUnderKey(a.hostvars, b.hostvars, host);
    RepeatsUnderKey(Encode(a).fields, Encode(b).fields, "hostvars");
  }

  lemma RepeatsUnderKey(x: map<string, Value>, y: map<string, Value>, key: string)
    requires key in x && key in y && !RepeatsAgree(x[key], y[key])
    ensures !RepeatsAgree(Object(x), Object(y))
  {
  }

  lemma ReorderedPair(a: Inventory, b: Inventory, others: seq<Inventory>)
    requires multiset([a, b]) == multiset(others)
    ensures others == [a, b] || others == [b, a]
  {
    SameItems([a, b], others);
    assert others == [others[0], others[1]];
    assert multiset(others) == multiset{others[0], others[1]} && multiset([a, b]) == multiset{a, b};
    assert others[0] in [a, b] && others[1] in [a, b];
    if others[0] == others[1] {
      assert a in others && b in others;
    }
  }

  /** A reordering of the encoded sources comes from a reordering of the sources. */
  lemma DecodedReordering(sources: seq<Inventory>, ws: seq<Value>) returns (others: seq<Inventory>)
    requires multiset(Encoded(sources)) == multiset(ws)
    ensures multiset(others) == multiset(sources) && Encoded(others) == ws
    decreases |ws|
  {
    SameItems(Encoded(sources), ws);
    if ws == [] {
      others := [];
    } else {
      var first, rest := DecodedFirst(sources, ws);
      var tail := DecodedReordering(rest, ws[1..]);
      others := [first] + tail;
      EncodedConcat([first], tail);
    }
  }

  lemma DecodedFirst(sources: seq<Inventory>, ws: seq<Value>) returns (first: Inventory, rest: seq<Inventory>)
    requires multiset(Encoded(sources)) == multiset(ws) && ws != []
    ensures Encode(first) == ws[0] && multiset(sources) == multiset([first]) + multiset(rest)
    ensures multiset(Encoded(rest)) == multiset(ws[1..])
  {
    SameItems(Encoded(sources), ws);
    assert ws[0] in Encoded(sources);
    var k :| 0 <= k < |sources| && Encode(sources[k]) == ws[0];
    first, rest := sources[k], sources[..k] + sources[k + 1..];
    EncodedWithout(sources, k);
    assert ws == [ws[0]] + ws[1..];
    Cancel(multiset(Encoded(rest)), multiset(ws[1..]), ws[0]);
    assert sources == sources[..k] + [first] + sources[k + 1..];
  }

  // ----- Conservation ------------------------------------------------------------------------

  /** The hosts of the named group, none when there is no such group. */
  function HostsIn(groups: map<string, Value>, name: string): set<string> {
    if name in groups then GroupHosts(groups[name]) else {}
  }

  /** Everything a group of some source holds. */
  ghost function UnionOfHosts(sources: seq<Inventory>, name: string): set<string> {
    set i, h | 0 <= i < |sources| && h in HostsIn(sources[i].groups, name) :: h
  }

  lemma MergedGroupHosts(a: Value, b: Value)
    requires a.Object? && b.Object? && MergeValues(a, b).Some?
    ensures GroupHosts(MergeValues(a, b).value) == GroupHosts(a) + GroupHosts(b)
  {
    var (x, y, z) := (a.fields, b.fields, MergeValues(a, b).value.fields);
    if "hosts" in x && "hosts" in y {
      var m := MergeValues(x["hosts"], y["hosts"]);
      assert m == Some(z["hosts"]);
      if x["hosts"].Array? {
        AppendUniqueMembers(x["hosts"].items, y["hosts"].items);
      }
    } else {
      assert "hosts" in x ==> z["hosts"] == x["hosts"];
      assert "hosts" in y ==> z["hosts"] == y["hosts"];
    }
  }

  ghost function HostvarNames(sources: seq<Inventory>): set<string> {
    set i, h | 0 <= i < |sources| && h in sources[i].hostvars :: h
  }

  ghost function GroupNames(sources: seq<Inventory>): set<string> {
    set i, g | 0 <= i < |sources| && g in sources[i].groups :: g
  }

  lemma {:induction false} MergeAllConserves(acc: Inventory, rest: seq<Inventory>, result: Inventory)
    requires WellFormed(acc) && forall i :: 0 <= i < |rest| ==> WellFormed(rest[i])
    requires MergeAll(Encode(acc), Encoded(rest)) == Some(Encode(result))
    ensures result.hostvars.Keys == acc.hostvars.Keys + HostvarNames(rest)
    ensures result.groups.Keys == acc.groups.Keys + GroupNames(rest)
    ensures forall g :: HostsIn(result.groups, g) == HostsIn(acc.groups, g) + UnionOfHosts(rest, g)
    decreases |rest|
  {
    if rest == [] {
      EncodeInjective(acc, result);
    } else {
      assert Encoded(rest)[1..] == Encoded(rest[1..]);
      var next := StepOf(acc, rest[0]);
      MergeAllConserves(next, rest[1..], result);
      SplitFirst(rest);
    }
  }

  lemma EncodeInjective(a: Inventory, b: Inventory)
    requires Encode(a) == Encode(b)
    ensures a == b
  {
    assert Decode(Encode(a)) == a && Decode(Encode(b)) == b;
  }

  lemma SplitFirst(rest: seq<Inventory>)
    requires rest != []
    ensures HostvarNames(rest) == rest[0].hostvars.Keys + HostvarNames(rest[1..])
    ensures GroupNames(rest) == rest[0].groups.Keys + GroupNames(rest[1..])
    ensures forall g :: UnionOfHosts(rest, g) == HostsIn(rest[0].groups, g) + UnionOfHosts(rest[1..], g)
  {
    assert forall i :: 0 < i < |rest| ==> rest[i] == rest[1..][i - 1];
    assert forall i :: 0 <= i < |rest[1..]| ==> rest[1..][i] == rest[i + 1];
    forall g ensures UnionOfHosts(rest, g) == HostsIn(rest[0].groups, g) + UnionOfHosts(rest[1..], g) {
    }
  }

  /** One merged source, as an inventory. */
  lemma StepOf(acc: Inventory, source: Inventory) returns (next: Inventory)
    requires WellFormed(acc) && WellFormed(source) && MergeValues(Encode(acc), Encode(source)).Some?
    ensures MergeValues(Encode(acc), Encode(source)) == Some(Encode(next)) && WellFormed(next)
    ensures next.hostvars.Keys == acc.hostvars.Keys + source.hostvars.Keys
    ensures next.groups.Keys == acc.groups.Keys + source.groups.Keys
    ensures forall g :: HostsIn(next.groups, g) == HostsIn(acc.groups, g) + HostsIn(source.groups, g)
  {
    SectionsMerge(acc, source);
    next := Inventory(MergeValues(Object(acc.hostvars), Object(source.hostvars)).value.fields,
                      MergeValues(Object(acc.groups), Object(source.groups)).value.fields);
    FieldsMergedIff(acc.hostvars, source.hostvars, next.hostvars);
    FieldsMergedIff(acc.groups, source.groups, next.groups);
    MergeOfSections(acc, source, next);
    forall g ensures HostsIn(next.groups, g) == HostsIn(acc.groups, g) + HostsIn(source.groups, g) {
      if g in acc.groups && g in source.groups {
        MergedGroupHosts(acc.groups[g], source.groups[g]);
      }
    }
  }

  /** Nothing is lost or invented: the hosts are those of the sources, each group has the hosts
    it has in some source, and every value of a source is still absorbed. */
  lemma ComposeConserves(sources: seq<Inventory>)
    requires Composed(sources).Some?
    ensures var r := Composed(sources).value;
      && r.hostvars.Keys == (set i, h | 0 <= i < |sources| && h in AllHosts(sources[i]) :: h)
      && r.groups.Keys == GroupNames(sources) + {"all"}
      && (forall h :: h in r.hostvars && h !in HostvarNames(sources) ==> r.hostvars[h] == Object(map[]))
      && ("all" !in GroupNames(sources) ==> r.groups["all"] == Object(map["children" := Array([])]))
      && (forall g :: g in r.groups ==> GroupHosts(r.groups[g]) == UnionOfHosts(sources, g))
      && (forall i :: 0 <= i < |sources| ==> Absorbs(Encode(r), Encode(sources[i])))
  {
    MergedEncoded(sources);
    MergedHosts(sources, Merged(sources));
    CompletedGroupHosts(sources, Merged(sources));
    AllHostsOfUnion(sources, Merged(sources));
    forall i | 0 <= i < |sources| ensures Absorbs(Encode(Composed(sources).value), Encode(sources[i])) {
      ComposedAbsorbs(sources, i);
    }
  }

  lemma MergedHosts(sources: seq<Inventory>, merged: Inventory)
    requires sources != [] && (forall i :: 0 <= i < |sources| ==> WellFormed(sources[i]))
    requires MergeSeq(Encoded(sources)) == Some(Encode(merged))
    ensures merged.hostvars.Keys == HostvarNames(sources) && merged.groups.Keys == GroupNames(sources)
    ensures forall g :: HostsIn(merged.groups, g) == UnionOfHosts(sources, g)
  {
    NothingIsNeutral(sources);
    MergeAllConserves(NOTHING, sources, merged);
  }

  lemma CompletedGroupHosts(sources: seq<Inventory>, merged: Inventory)
    requires forall g :: HostsIn(merged.groups, g) == UnionOfHosts(sources, g)
    ensures forall g :: g in Completed(merged).groups ==>
      GroupHosts(Completed(merged).groups[g]) == UnionOfHosts(sources, g)
  {
    forall g | g in Completed(merged).groups
      ensures GroupHosts(Completed(merged).groups[g]) == UnionOfHosts(sources, g)
    {
      assert HostsIn(merged.groups, g) == UnionOfHosts(sources, g);
    }
  }

  lemma ComposedAbsorbs(sources: seq<Inventory>, i: nat)
    requires Composed(sources).Some? && i < |sources|
    ensures Absorbs(Encode(Composed(sources).value), Encode(sources[i]))
  {
    var (values, merged) := (Encoded(sources), Merged(sources));
    MergedEncoded(sources);
    assert values == [values[0]] + values[1..];
    MergeAllIsLeastUpperBound(values[0], values[1..]);
    CompletedAbsorbsMerged(merged);
    assert values[i] in values;
    AbsorbsTransitive(Encode(Composed(sources).value), Encode(merged), values[i]);
  }

  lemma CompletedAbsorbsMerged(inv: Inventory)
    ensures Absorbs(Encode(Completed(inv)), Encode(inv))
  {
    forall h | h in inv.hostvars {
      AbsorbsReflexive(inv.hostvars[h]);
    }
    forall g | g in inv.groups {
      AbsorbsReflexive(inv.groups[g]);
    }
    AbsorbsSections(Completed(inv), inv);
  }

  lemma AllHostsOfUnion(sources: seq<Inventory>, merged: Inventory)
    requires merged.hostvars.Keys == HostvarNames(sources) && merged.groups.Keys == GroupNames(sources)
    requires forall g :: HostsIn(merged.groups, g) == UnionOfHosts(sources, g)
    ensures AllHosts(merged) == set i, h | 0 <= i < |sources| && h in AllHosts(sources[i]) :: h
  {
    forall h | h in AllHosts(merged) ensures exists i :: 0 <= i < |sources| && h in AllHosts(sources[i]) {
      if h in AllGroupHosts(merged.groups) {
        var g :| g in merged.groups && h in HostsIn(merged.groups, g);
        var i :| 0 <= i < |sources| && h in HostsIn(sources[i].groups, g);
        assert h in AllHosts(sources[i]);
      } else {
        var i :| 0 <= i < |sources| && h in sources[i].hostvars;
      }
    }
    forall i, h | 0 <= i < |sources| && h in AllHosts(sources[i]) ensures h in AllHosts(merged) {
      if h in AllGroupHosts(sources[i].groups) {
        var g :| g in sources[i].groups && h in HostsIn(sources[i].groups, g);
        assert h in HostsIn(merged.groups, g);
      }
    }
  }

  /** The completion adds no more than empty variables and an empty group "all": any inventory that
    absorbs the sources, has variables for every host and has the group, absorbs the result. */
  lemma ComposedIsLeast(sources: seq<Inventory>, other: Inventory)
    requires Composed(sources).Some?
    requires forall i :: 0 <= i < |sources| ==> Absorbs(Encode(other), Encode(sources[i]))
    requires forall i :: 0 <= i < |sources| ==> HasVariables(other, AllHosts(sources[i]))
    requires "all" in GroupNames(sources) || HasEmptyAll(other)
    ensures Absorbs(Encode(other), Encode(Composed(sources).value))
  {
    var merged := Merged(sources);
    MergedIsLeast(sources, merged, other);
    HostsHaveVariables(sources, merged, other);
    MergedEncoded(sources);
    MergedHosts(sources, merged);
    CompletedAbsorbed(merged, other);
  }

  ghost predicate HasVariables(inv: Inventory, hosts: set<string>) {
    forall h :: h in hosts ==> h in inv.hostvars && inv.hostvars[h].Object?
  }

  lemma MergedIsLeast(sources: seq<Inventory>, merged: Inventory, other: Inventory)
    requires Composed(sources).Some? && merged == Merged(sources)
    requires forall i :: 0 <= i < |sources| ==> Absorbs(Encode(other), Encode(sources[i]))
    ensures Absorbs(Encode(other), Encode(merged))
  {
    var values := Encoded(sources);
    MergedEncoded(sources);
    assert values == [values[0]] + values[1..];
    MergeAllIsLeastUpperBound(values[0], values[1..]);
  }

  lemma HostsHaveVariables(sources: seq<Inventory>, merged: Inventory, other: Inventory)
    requires Composed(sources).Some? && merged == Merged(sources)
    requires forall i :: 0 <= i < |sources| ==> HasVariables(other, AllHosts(sources[i]))
    ensures HasVariables(other, AllGroupHosts(merged.groups))
  {
    MergedEncoded(sources);
    MergedHosts(sources, merged);
    AllHostsOfUnion(sources, merged);
    forall h | h in AllGroupHosts(merged.groups) ensures h in other.hostvars && other.hostvars[h].Object? {
      assert h in AllHosts(merged);
      var i :| 0 <= i < |sources| && h in AllHosts(sources[i]);
      assert HasVariables(other, AllHosts(sources[i]));
    }
  }

  /** The group "all" exists, with a list of children. */
  ghost predicate HasEmptyAll(inv: Inventory) {
    "all" in inv.groups && Absorbs(inv.groups["all"], Object(map["children" := Array([])]))
  }

  lemma CompletedAbsorbed(merged: Inventory, other: Inventory)
    requires Absorbs(Encode(other), Encode(merged)) && ("all" in merged.groups || HasEmptyAll(other))
    requires HasVariables(other, AllGroupHosts(merged.groups))
    ensures Absorbs(Encode(other), Encode(Completed(merged)))
  {
    var completed := Completed(merged);
    AbsorbsSections(other, merged);
    AbsorbsSections(other, completed);
    forall h | h in completed.hostvars
      ensures h in other.hostvars && Absorbs(other.hostvars[h], completed.hostvars[h])
    {
      assert h in merged.hostvars || completed.hostvars[h] == Object(map[]);
    }
    forall g | g in completed.groups ensures g in other.groups && Absorbs(other.groups[g], completed.groups[g]) {
    }
  }
}
