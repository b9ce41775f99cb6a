/** Runner slices of one job step (app/services/execution_slices.py).

  What the planner looks up about hosts and runners is fixed for the call and comes in as
  functions. */
module Slices {
  import opened Options
  import opened Strings

  type RunnerId = nat

  /** What the host variables say about the runner. */
  datatype Reference = NoReference | Builtin | Named(reference: string) | Conflicting

  /** The default crew of the project, and the member that selection picks, if any. */
  datatype Crew = NoCrew | DefaultCrew(selected: Option<RunnerId>)

  datatype Routing = Routing(
    isLocal: string -> bool,
    reference: string -> Reference,
    registered: string -> Option<RunnerId>,
    defaultRunner: Option<RunnerId>,
    crew: Crew,
    eligible: RunnerId -> bool,       // the required capabilities and environment
    name: RunnerId -> string,
    hostname: RunnerId -> string,
    lower: string -> string)

  datatype Target = Local | Remote(id: RunnerId)

  datatype Slice = Slice(target: Target, name: string, hostname: string, hosts: seq<string>)

  // ----- The rule for one host -----------------------------------------------------------------

  function Checked(r: Routing, id: RunnerId): Option<Target> {
    if r.eligible(id) then Some(Remote(id)) else None
  }

  /** The precedence rule; None when the host cannot be routed. */
  function Route(r: Routing, host: string): Option<Target> {
    if r.isLocal(host) then Some(Local)
    else match r.reference(host)
      case Conflicting => None
      case Builtin => Some(Local)
      case Named(reference) => if r.registered(reference).None? then None else Checked(r, r.registered(reference).value)
      case NoReference =>
        if r.defaultRunner.Some? then Checked(r, r.defaultRunner.value)
        else match r.crew
          case NoCrew => Some(Local)
          case DefaultCrew(selected) => if selected.None? then None else Checked(r, selected.value)
  }

  /** Hosts that the first pass leaves to the crew. */
  predicate CrewRouted(r: Routing, host: string) {
    !r.isLocal(host) && r.reference(host).NoReference? && r.defaultRunner.None? && r.crew.DefaultCrew?
  }

  /** What sends a host to the local runner: its inventory, its variables, or nothing at all. */
  predicate StaysLocal(r: Routing, host: string) {
    || r.isLocal(host) || r.reference(host) == Builtin
    || (r.reference(host) == NoReference && r.defaultRunner == None && r.crew == NoCrew)
  }

  /** What sends a host to a runner: its variables, else the default runner, else the crew. */
  predicate GoesTo(r: Routing, host: string, id: RunnerId) {
    && !r.isLocal(host) && r.eligible(id)
    && match r.reference(host)
       case Named(reference) => r.registered(reference) == Some(id)
       case NoReference =>
         r.defaultRunner == Some(id) || (r.defaultRunner == None && r.crew == DefaultCrew(Some(id)))
       case _ => false
  }

  /** A host without a place fails the plan: conflicting variables, an unknown or unfit runner. */
  lemma RoutableIff(r: Routing, host: string)
    ensures Route(r, host).Some? <==> StaysLocal(r, host) || exists id :: GoesTo(r, host, id)
  {
    if Route(r, host).Some? && Route(r, host).value.Remote? {
      assert GoesTo(r, host, Route(r, host).value.id);
    }
  }

  // ----- The order of slices -------------------------------------------------------------------

  function SliceOf(r: Routing, target: Target, hosts: seq<string>): Slice {
    if target.Local? then Slice(Local, "local", "localhost", hosts)
    else Slice(target, r.name(target.id), r.hostname(target.id), hosts)
  }

  /** `sort_key`: local first, then the lowered name and hostname, then the id. */
  predicate TargetBefore(r: Routing, a: Target, b: Target) {
    if b.Local? then false
    else if a.Local? then true
    else
      var (m, n) := (r.lower(r.name(a.id)), r.lower(r.name(b.id)));
      var (g, h) := (r.lower(r.hostname(a.id)), r.lower(r.hostname(b.id)));
      Before(m, n) || (m == n && (Before(g, h) || (g == h && a.id < b.id)))
  }

  function TargetLess(r: Routing): Less<Target> {
    (a, b) => TargetBefore(r, a, b)
  }

  lemma TargetBeforeTotal(r: Routing, a: Target, b: Target)
    ensures !TargetBefore(r, a, a) && (a != b ==> TargetBefore(r, a, b) || TargetBefore(r, b, a))
  {
    if a.Remote? {
      BeforeTotal(r.lower(r.name(a.id)), r.lower(r.name(a.id)));
      BeforeTotal(r.lower(r.hostname(a.id)), r.lower(r.hostname(a.id)));
      if b.Remote? {
        BeforeTotal(r.lower(r.name(a.id)), r.lower(r.name(b.id)));
        BeforeTotal(r.lower(r.hostname(a.id)), r.lower(r.hostname(b.id)));
      }
    }
  }

  lemma TargetBeforeTransitive(r: Routing, a: Target, b: Target, c: Target)
    requires TargetBefore(r, a, b) && TargetBefore(r, b, c)
    ensures TargetBefore(r, a, c)
  {
    if a.Remote? {
      var (m, n, o) := (r.lower(r.name(a.id)), r.lower(r.name(b.id)), r.lower(r.name(c.id)));
      var (g, h, k) := (r.lower(r.hostname(a.id)), r.lower(r.hostname(b.id)), r.lower(r.hostname(c.id)));
      if Before(m, n) && Before(n, o) {
        BeforeTransitive(m, n, o);
      } else if Before(g, h) && Before(h, k) {
        BeforeTransitive(g, h, k);
      }
    }
  }

  lemma TargetLessIsStrictTotal(r: Routing)
    ensures StrictTotal(TargetLess(r))
  {
    var less := TargetLess(r);
    forall a, b ensures !less(a, a) && (a != b ==> less(a, b) || less(b, a)) {
      TargetBeforeTotal(r, a, b);
    }
    forall a, b, c | less(a, b) && less(b, c) ensures less(a, c) {
      TargetBeforeTransitive(r, a, b, c);
    }
  }

  // ----- The plan ------------------------------------------------------------------------------

  function Targets(plan: seq<Slice>): seq<Target> {
    seq(|plan|, i requires 0 <= i < |plan| => plan[i].target)
  }

  /** The independent definition: slices in strict order with strictly sorted hosts, where each
    host of the step, and nothing else, is in the slice of its route. */
  ghost predicate IsPlan(r: Routing, hosts: set<string>, plan: seq<Slice>) {
    && Ascending(Targets(plan), TargetLess(r))
    && (forall i :: 0 <= i < |plan| ==> SoundSlice(r, hosts, plan[i]))
    && (forall h :: h in hosts ==> exists i :: 0 <= i < |plan| && h in plan[i].hosts)
  }

  ghost predicate SoundSlice(r: Routing, hosts: set<string>, slice: Slice) {
    && slice == SliceOf(r, slice.target, slice.hosts) && slice.hosts != [] && Ascending(slice.hosts, Before)
    && forall h :: h in slice.hosts ==> h in hosts && Route(r, h) == Some(slice.target)
  }

  /** The groups hold exactly these hosts, each under its route. */
  ghost predicate Grouped(r: Routing, groups: map<Target, seq<string>>, hosts: set<string>) {
    && (forall t :: t in groups ==> groups[t] != [])
    && (forall t, h :: t in groups && h in groups[t] ==> h in hosts && Route(r, h) == Some(t))
    && (forall h :: h in hosts ==> Route(r, h).Some? && Route(r, h).value in groups && h in groups[Route(r, h).value])
  }

  /** The shared variables of the planner: the groups in order of creation, and the hosts left
    to the crew. */
  class Planner {
    const r: Routing
    var groups: map<Target, seq<string>>
    var order: seq<Target>
    var crewHosts: seq<string>

    constructor (r: Routing)
      ensures this.r == r && groups == map[] && order == [] && crewHosts == []
    {
      this.r, groups, order, crewHosts := r, map[], [], [];
    }

    ghost predicate Holds(done: set<string>)
      reads this
    {
      (forall t :: t in order <==> t in groups) && Grouped(r, groups, done)
    }

    method Add(target: Target, host: string, ghost done: set<string>)
      requires Holds(done) && Route(r, host) == Some(target)
      modifies this`groups, this`order
      ensures Holds(done + {host})
    {
      if target !in groups {
        groups, order := groups[target := []], order + [target];
      }
      groups := groups[target := groups[target] + [host]];
    }

    /** `add_remote` */
    method AddRemote(id: RunnerId, host: string, ghost done: set<string>) returns (ok: bool)
      requires Holds(done) && Route(r, host) == Checked(r, id)
      modifies this`groups, this`order
      ensures ok <==> Route(r, host).Some?
      ensures ok ==> Holds(done + {host})
    {
      if !r.eligible(id) {
        return false;
      }
      Add(Remote(id), host, done);
      return true;
    }

    /** One iteration of the first pass. */
    method AddHost(host: string, ghost done: set<string>) returns (ok: bool)
      requires Holds(done)
      modifies this
      ensures CrewRouted(r, host) ==> ok && Holds(done) && crewHosts == old(crewHosts) + [host]
      ensures !CrewRouted(r, host) ==>
        crewHosts == old(crewHosts) && (ok <==> Route(r, host).Some?) && (ok ==> Holds(done + {host}))
    {
      if r.isLocal(host) {
        Add(Local, host, done);
        return true;
      }
      match r.reference(host)
      case Conflicting =>
        return false;
      case Builtin =>
        Add(Local, host, done);
        return true;
      case Named(reference) =>
        var runner := r.registered(reference);
        if runner.None? {
          return false;
        }
        ok := AddRemote(runner.value, host, done);
      case NoReference =>
        if r.defaultRunner.Some? {
          ok := AddRemote(r.defaultRunner.value, host, done);
        } else if r.crew.DefaultCrew? {
          crewHosts := crewHosts + [host];
          return true;
        } else {
          Add(Local, host, done);
          return true;
        }
    }

    /** The pass over the sorted distinct hosts. */
    method FirstPass(hosts: seq<string>) returns (ok: bool)
      requires groups == map[] && order == [] && crewHosts == []
      modifies this
      ensures ok <==> forall h :: h in hosts && !CrewRouted(r, h) ==> Route(r, h).Some?
      ensures ok ==> Holds(set h | h in hosts && !CrewRouted(r, h))
      ensures ok ==> forall h :: h in crewHosts <==> h in hosts && CrewRouted(r, h)
    {
      ghost var done: set<string> := {};
      for n := 0 to |hosts|
        invariant Holds(done) && done == set h | h in hosts[..n] && !CrewRouted(r, h)
        invariant forall h :: h in crewHosts <==> h in hosts[..n] && CrewRouted(r, h)
      {
        assert hosts[..n + 1] == hosts[..n] + [hosts[n]];
        ok := AddHost(hosts[n], done);
        if !ok {
          return;
        }
        if !CrewRouted(r, hosts[n]) {
          done := done + {hosts[n]};
        }
      }
      assert hosts[..|hosts|] == hosts;
      return true;
    }

    /** The deferred pass: one crew member for all hosts left to the crew. */
    method CrewPass(ghost done: set<string>) returns (ok: bool)
      requires Holds(done) && forall h :: h in crewHosts ==> CrewRouted(r, h)
      modifies this`groups, this`order
      ensures ok <==> forall h :: h in crewHosts ==> Route(r, h).Some?
      ensures ok ==> Holds(done + Distinct(crewHosts))
    {
      if crewHosts == [] {
        assert done + Distinct(crewHosts) == done;
        return true;
      }
      assert crewHosts[0] in crewHosts;
      if r.crew.selected.None? {
        return false;
      }
      ghost var now := done;
      for n := 0 to |crewHosts|
        invariant Holds(now) && now == done + Distinct(crewHosts[..n])
      {
        assert crewHosts[..n + 1] == crewHosts[..n] + [crewHosts[n]];
        assert crewHosts[n] in crewHosts;
        ok := AddRemote(r.crew.selected.value, crewHosts[n], now);
        if !ok {
          return;
        }
        now := now + {crewHosts[n]};
      }
      assert crewHosts[..|crewHosts|] == crewHosts;
      return true;
    }
  }

  /** One slice per group, its hosts sorted. */
  ghost predicate SlicesOf(r: Routing, groups: map<Target, seq<string>>, targets: seq<Target>, slices: seq<Slice>) {
    && |slices| == |targets| && Ascending(targets, TargetLess(r)) && (forall t :: t in targets <==> t in groups)
    && forall i :: 0 <= i < |slices| ==> SliceOfGroup(r, groups, targets[i], slices[i])
  }

  ghost predicate SliceOfGroup(r: Routing, groups: map<Target, seq<string>>, target: Target, slice: Slice) {
    && slice == SliceOf(r, target, slice.hosts) && target in groups
    && Ascending(slice.hosts, Before) && forall h :: h in slice.hosts <==> h in groups[target]
  }

  /** The final sort of the groups, and of the hosts of each. */
  method SortGroups(r: Routing, groups: map<Target, seq<string>>, order: seq<Target>)
    returns (slices: seq<Slice>, ghost targets: seq<Target>)
    requires forall t :: t in order <==> t in groups
    ensures SlicesOf(r, groups, targets, slices)
  {
    TargetsSorted(r, order);
    targets := SortedSet(order, TargetLess(r));
    slices := SortEach(r, groups, SortedSet(order, TargetLess(r)));
  }

  method SortEach(r: Routing, groups: map<Target, seq<string>>, targets: seq<Target>) returns (slices: seq<Slice>)
    requires forall t :: t in targets ==> t in groups
    ensures |slices| == |targets| && forall i :: 0 <= i < |slices| ==> SliceOfGroup(r, groups, targets[i], slices[i])
  {
    slices := [];
    for n := 0 to |targets|
      invariant |slices| == n && forall i :: 0 <= i < n ==> SliceOfGroup(r, groups, targets[i], slices[i])
    {
      assert targets[n] in targets;
      var slice := SortGroup(r, groups, targets[n]);
      slices := slices + [slice];
    }
  }

  method SortGroup(r: Routing, groups: map<Target, seq<string>>, target: Target) returns (slice: Slice)
    requires target in groups
    ensures SliceOfGroup(r, groups, target, slice)
  {
    HostsSorted(groups[target]);
    slice := SliceOf(r, target, SortedSet(groups[target], Before));
  }

  lemma TargetsSorted(r: Routing, order: seq<Target>)
    ensures Ascending(SortedSet(order, TargetLess(r)), TargetLess(r))
    ensures forall t :: t in SortedSet(order, TargetLess(r)) <==> t in order
  {
    TargetLessIsStrictTotal(r);
    SortedSetSorts(order, TargetLess(r));
  }

  lemma HostsSorted(hosts: seq<string>)
    ensures Ascending(SortedSet(hosts, Before), Before)
    ensures forall h :: h in SortedSet(hosts, Before) <==> h in hosts
  {
    BeforeIsStrictTotal();
    SortedSetSorts(hosts, Before);
  }

  /** `plan_step_execution_slices`: it succeeds exactly when every host can be routed. */
  method PlanSlices(r: Routing, targetHosts: seq<string>) returns (plan: Option<seq<Slice>>)
    ensures plan.Some? <==> forall h :: h in targetHosts ==> Route(r, h).Some?
    ensures plan.Some? <==> forall h :: h in targetHosts ==> StaysLocal(r, h) || exists id :: GoesTo(r, h, id)
    ensures plan.Some? ==> IsPlan(r, Distinct(targetHosts), plan.value)
  {
    var hosts := SortedSet(targetHosts, Before);
    HostsSorted(targetHosts);
    forall h ensures Route(r, h).Some? <==> StaysLocal(r, h) || exists id :: GoesTo(r, h, id) {
      RoutableIff(r, h);
    }
    var planner := new Planner(r);
    var ok := planner.FirstPass(hosts);
    if !ok {
      return None;
    }
    ghost var first := set h | h in hosts && !CrewRouted(r, h);
    ok := planner.CrewPass(first);
    if !ok {
      return None;
    }
    assert first + Distinct(planner.crewHosts) == Distinct(targetHosts);
    var slices;
    ghost var targets;
    slices, targets := SortGroups(r, planner.groups, planner.order);
    GroupsMakePlan(r, Distinct(targetHosts), planner.groups, targets, slices);
    return Some(slices);
  }

  lemma GroupsMakePlan(r: Routing, hosts: set<string>, groups: map<Target, seq<string>>, targets: seq<Target>,
                       slices: seq<Slice>)
    requires Grouped(r, groups, hosts) && SlicesOf(r, groups, targets, slices)
    ensures IsPlan(r, hosts, slices)
  {
    forall i | 0 <= i < |slices| ensures SoundSlice(r, hosts, slices[i]) && slices[i].target == targets[i] {
      GroupMakesSlice(r, hosts, groups, targets[i], slices[i]);
    }
    assert Targets(slices) == targets;
    EveryHostPlanned(r, hosts, groups, targets, slices);
  }

  lemma GroupMakesSlice(r: Routing, hosts: set<string>, groups: map<Target, seq<string>>, target: Target, slice: Slice)
    requires Grouped(r, groups, hosts) && SliceOfGroup(r, groups, target, slice)
    ensures slice.target == target && SoundSlice(r, hosts, slice)
  {
    assert groups[target][0] in groups[target];
  }

  lemma EveryHostPlanned(r: Routing, hosts: set<string>, groups: map<Target, seq<string>>, targets: seq<Target>,
                         slices: seq<Slice>)
    requires Grouped(r, groups, hosts) && SlicesOf(r, groups, targets, slices)
    ensures forall h :: h in hosts ==> exists i :: 0 <= i < |slices| && h in slices[i].hosts
  {
    forall h | h in hosts ensures exists i :: 0 <= i < |slices| && h in slices[i].hosts {
      var t := Route(r, h).value;
      var i :| 0 <= i < |targets| && targets[i] == t;
      assert SliceOfGroup(r, groups, targets[i], slices[i]);
    }
  }

  // ----- What every plan guarantees --------------------------------------------------------------

  /** Every host of a plan is where the precedence of its own variables, the default runner and the
    crew puts it, and no runner without the required capabilities gets any. */
  lemma PlanFollowsPrecedence(r: Routing, hosts: set<string>, plan: seq<Slice>, i: nat, h: string)
    requires IsPlan(r, hosts, plan) && i < |plan| && h in hosts
    ensures h in plan[i].hosts <==>
      match plan[i].target case Local => StaysLocal(r, h) case Remote(id) => GoesTo(r, h, id)
    ensures match plan[i].target
      case Local => plan[i].name == "local" && plan[i].hostname == "localhost"
      case Remote(id) => plan[i].name == r.name(id) && plan[i].hostname == r.hostname(id) && r.eligible(id)
  {
    SliceHoldsRoute(r, hosts, plan, i, h);
    assert SoundSlice(r, hosts, plan[i]);
    assert plan[i].hosts[0] in plan[i].hosts;
  }

  /** Remote slices are in the order of their lowered names, then hostnames, then ids. */
  lemma PlanOrdered(r: Routing, hosts: set<string>, plan: seq<Slice>, i: nat, j: nat)
    requires IsPlan(r, hosts, plan) && i < j < |plan| && plan[i].target.Remote?
    ensures plan[j].target.Remote?
    ensures var (m, n) := (r.lower(plan[i].name), r.lower(plan[j].name));
      var (g, h) := (r.lower(plan[i].hostname), r.lower(plan[j].hostname));
      && !Before(n, m) && (m == n ==> !Before(h, g))
      && (m == n && g == h ==> plan[i].target.id < plan[j].target.id)
  {
    var (a, b) := (Targets(plan)[i], Targets(plan)[j]);
    assert SoundSlice(r, hosts, plan[i]) && SoundSlice(r, hosts, plan[j]) && TargetLess(r)(a, b);
    BeforeIsStrictTotal();
  }

  /** The slice of a target holds exactly the hosts routed there. */
  lemma SliceHoldsRoute(r: Routing, hosts: set<string>, plan: seq<Slice>, i: nat, h: string)
    requires IsPlan(r, hosts, plan) && i < |plan| && h in hosts
    ensures h in plan[i].hosts <==> Route(r, h) == Some(plan[i].target)
  {
    var j :| 0 <= j < |plan| && h in plan[j].hosts;
    assert SoundSlice(r, hosts, plan[i]) && SoundSlice(r, hosts, plan[j]);
    if i != j && plan[i].target == plan[j].target {
      SameTarget(r, plan, i, j);
    }
  }

  lemma SameTarget(r: Routing, plan: seq<Slice>, i: nat, j: nat)
    requires Ascending(Targets(plan), TargetLess(r)) && i < |plan| && j < |plan| && plan[i].target == plan[j].target
    ensures i == j
  {
    var targets := Targets(plan);
    assert targets[i] == targets[j];
    TargetBeforeTotal(r, targets[i], targets[i]);
  }

  lemma LocalFirst(r: Routing, plan: seq<Slice>, i: nat)
    requires Ascending(Targets(plan), TargetLess(r)) && i < |plan| && plan[i].target.Local?
    ensures i == 0
  {
    var (first, local) := (Targets(plan)[0], Targets(plan)[i]);
    assert !TargetLess(r)(first, local);
  }

  /** Each host is in exactly one slice; targets are distinct; the local slice, if any, is the
    first; and all hosts left to the crew share one slice. */
  lemma PlanPartitions(r: Routing, hosts: set<string>, plan: seq<Slice>)
    requires IsPlan(r, hosts, plan)
    ensures forall h :: h in hosts ==> exists i :: 0 <= i < |plan| && h in plan[i].hosts
    ensures forall i, j, h :: 0 <= i < |plan| && 0 <= j < |plan| && h in plan[i].hosts && h in plan[j].hosts ==> i == j
    ensures forall i, j :: 0 <= i < |plan| && 0 <= j < |plan| && plan[i].target == plan[j].target ==> i == j
    ensures forall i :: 0 <= i < |plan| && plan[i].target.Local? ==> i == 0
    ensures forall i, g, h :: 0 <= i < |plan| && g in hosts && h in hosts && CrewRouted(r, g) && CrewRouted(r, h) ==>
      (g in plan[i].hosts <==> h in plan[i].hosts)
  {
    forall i, j | 0 <= i < |plan| && 0 <= j < |plan| && plan[i].target == plan[j].target ensures i == j {
      SameTarget(r, plan, i, j);
    }
    forall i, j, h | 0 <= i < |plan| && 0 <= j < |plan| && h in plan[i].hosts && h in plan[j].hosts ensures i == j {
      assert SoundSlice(r, hosts, plan[i]) && SoundSlice(r, hosts, plan[j]);
    }
    forall i | 0 <= i < |plan| && plan[i].target.Local? ensures i == 0 {
      LocalFirst(r, plan, i);
    }
    forall i, g, h | 0 <= i < |plan| && g in hosts && h in hosts && CrewRouted(r, g) && CrewRouted(r, h)
      ensures g in plan[i].hosts <==> h in plan[i].hosts
    {
      SliceHoldsRoute(r, hosts, plan, i, g);
      SliceHoldsRoute(r, hosts, plan, i, h);
    }
  }

  /** The plan is determined by the set of hosts: neither their order nor repeats matter. */
  lemma PlanIsUnique(r: Routing, hosts: set<string>, plan: seq<Slice>, other: seq<Slice>)
    requires IsPlan(r, hosts, plan) && IsPlan(r, hosts, other)
    ensures plan == other
  {
    forall t | t in Targets(plan) ensures t in Targets(other) {
      TargetPlanned(r, hosts, plan, other, t);
    }
    forall t | t in Targets(other) ensures t in Targets(plan) {
      TargetPlanned(r, hosts, other, plan, t);
    }
    TargetLessIsStrictTotal(r);
    AscendingUnique(Targets(plan), Targets(other), TargetLess(r));
    assert |plan| == |Targets(plan)| == |other|;
    forall i | 0 <= i < |plan| ensures plan[i] == other[i] {
      assert Targets(plan)[i] == Targets(other)[i];
      SameSlice(r, hosts, plan, other, i);
    }
  }

  lemma TargetPlanned(r: Routing, hosts: set<string>, plan: seq<Slice>, other: seq<Slice>, t: Target)
    requires IsPlan(r, hosts, plan) && IsPlan(r, hosts, other) && t in Targets(plan)
    ensures t in Targets(other)
  {
    var i :| 0 <= i < |plan| && plan[i].target == t;
    assert SoundSlice(r, hosts, plan[i]);
    var h := plan[i].hosts[0];
    assert h in plan[i].hosts;
    var j :| 0 <= j < |other| && h in other[j].hosts;
    assert SoundSlice(r, hosts, other[j]);
    assert Targets(other)[j] == t;
  }

  lemma SameSlice(r: Routing, hosts: set<string>, plan: seq<Slice>, other: seq<Slice>, i: nat)
    requires IsPlan(r, hosts, plan) && IsPlan(r, hosts, other) && i < |plan| && i < |other|
    requires plan[i].target == other[i].target
    ensures plan[i] == other[i]
  {
    assert SoundSlice(r, hosts, plan[i]) && SoundSlice(r, hosts, other[i]);
    forall h ensures h in plan[i].hosts <==> h in other[i].hosts {
      if h in hosts {
        SliceHoldsRoute(r, hosts, plan, i, h);
        SliceHoldsRoute(r, hosts, other, i, h);
      }
    }
    BeforeIsStrictTotal();
    AscendingUnique(plan[i].hosts, other[i].hosts, Before);
  }

  // ----- Materialized slices ---------------------------------------------------------------------

  datatype Row = Row(position: nat, target: Target, name: string, hostname: string, hosts: seq<string>, hostCount: nat)

  /** `set_hosts`: the distinct stripped names that are not blank. */
  function StoredHosts(hosts: seq<string>): seq<string> {
    SortedSet(StrippedHosts(hosts), Before)
  }

  function StrippedHosts(hosts: seq<string>): seq<string> {
    if hosts == [] then []
    else (if Strip(hosts[0]) == "" then [] else [Strip(hosts[0])]) + StrippedHosts(hosts[1..])
  }

  /** The stored hosts are sorted: the stripped names that are not blank, each once. */
  lemma StoredHostsAre(hosts: seq<string>)
    ensures Ascending(StoredHosts(hosts), Before)
    ensures forall x :: x in StoredHosts(hosts) <==> x != "" && exists h :: h in hosts && Strip(h) == x
  {
    StrippedHostsAre(hosts);
    HostsSorted(StrippedHosts(hosts));
  }

  /** The row at a position. */
  function RowOf(slice: Slice, position: nat): Row {
    Row(position, slice.target, slice.name, slice.hostname, StoredHosts(slice.hosts), |StoredHosts(slice.hosts)|)
  }

  class JobStep {
    var slices: seq<Row>

    /** `materialize_step_execution_slices` */
    method Materialize(plans: seq<Slice>)
      modifies this
      ensures |slices| == |plans| && forall i :: 0 <= i < |plans| ==> slices[i] == RowOf(plans[i], i + 1)
      ensures forall i :: 0 <= i < |plans| ==>
        var (row, plan) := (slices[i], plans[i]);
        && row.position == i + 1 && row.target == plan.target && row.name == plan.name
        && row.hostname == plan.hostname && row.hosts == StoredHosts(plan.hosts) && row.hostCount == |row.hosts|
    {
      slices := [];
      for n := 0 to |plans|
        invariant |slices| == n && forall i :: 0 <= i < n ==> slices[i] == RowOf(plans[i], i + 1)
      {
        var hosts := StoredHosts(plans[n].hosts);
        slices := slices + [Row(n + 1, plans[n].target, plans[n].name, plans[n].hostname, hosts, |hosts|)];
      }
    }
  }

  function StoredTotal(plan: seq<Slice>): nat {
    if plan == [] then 0 else StoredTotal(plan[..|plan| - 1]) + |StoredHosts(plan[|plan| - 1].hosts)|
  }

  function PlannedTotal(plan: seq<Slice>): nat {
    if plan == [] then 0 else PlannedTotal(plan[..|plan| - 1]) + |plan[|plan| - 1].hosts|
  }

  /** Stripping loses no host: no name is blank, and no two differ in surrounding blanks only. */
  ghost predicate KeptByStrip(hosts: seq<string>) {
    && (forall h :: h in hosts ==> Strip(h) != "")
    && (forall g, h :: g in hosts && h in hosts && g != h ==> Strip(g) != Strip(h))
  }

  lemma {:induction false} StrippedHostsAre(hosts: seq<string>)
    ensures |StrippedHosts(hosts)| <= |hosts|
    ensures forall x :: x in StrippedHosts(hosts) <==> x != "" && exists h :: h in hosts && Strip(h) == x
    ensures |StrippedHosts(hosts)| == |hosts| <==> forall h :: h in hosts ==> Strip(h) != ""
    ensures |StrippedHosts(hosts)| == |hosts| ==>
      forall i :: 0 <= i < |hosts| ==> StrippedHosts(hosts)[i] == Strip(hosts[i])
  {
    if hosts != [] {
      StrippedHostsAre(hosts[1..]);
      assert hosts == [hosts[0]] + hosts[1..];
    }
  }

  /** A slice stores as many hosts as planned exactly when stripping loses none. */
  lemma StoredCountIff(hosts: seq<string>)
    requires Ascending(hosts, Before)
    ensures |StoredHosts(hosts)| <= |hosts| && (|StoredHosts(hosts)| == |hosts| <==> KeptByStrip(hosts))
  {
    var stripped := StrippedHosts(hosts);
    StrippedHostsAre(hosts);
    BeforeIsStrictTotal();
    SortedSetLength(stripped, Before);
    if KeptByStrip(hosts) {
      assert NoRepeats(stripped);
    }
    if |StoredHosts(hosts)| == |hosts| {
      forall g, h | g in hosts && h in hosts && g != h ensures Strip(g) != Strip(h) {
        var i :| 0 <= i < |hosts| && hosts[i] == g;
        var j :| 0 <= j < |hosts| && hosts[j] == h;
        assert stripped[i] == Strip(g) && stripped[j] == Strip(h);
      }
    }
  }

  function PlannedHosts(plan: seq<Slice>): set<string> {
    if plan == [] then {} else PlannedHosts(plan[..|plan| - 1]) + Distinct(plan[|plan| - 1].hosts)
  }

  lemma {:induction false} PlannedHostsAre(plan: seq<Slice>)
    ensures forall h :: h in PlannedHosts(plan) <==> exists i :: 0 <= i < |plan| && h in plan[i].hosts
  {
    if plan != [] {
      PlannedHostsAre(plan[..|plan| - 1]);
      assert plan == plan[..|plan| - 1] + [plan[|plan| - 1]];
    }
  }

  lemma {:induction false} PlannedTotalIs(r: Routing, hosts: set<string>, plan: seq<Slice>)
    requires Ascending(Targets(plan), TargetLess(r)) && forall i :: 0 <= i < |plan| ==> SoundSlice(r, hosts, plan[i])
    ensures PlannedTotal(plan) == |PlannedHosts(plan)|
  {
    if plan != [] {
      var (init, last) := (plan[..|plan| - 1], plan[|plan| - 1]);
      assert Targets(init) == Targets(plan)[..|init|];
      PlannedTotalIs(r, hosts, init);
      PlannedHostsAre(init);
      assert SoundSlice(r, hosts, last);
      AscendingHasNoRepeats(last.hosts);
      DistinctSize(last.hosts);
      forall h | h in Distinct(last.hosts) ensures h !in PlannedHosts(init) {
        if i :| 0 <= i < |init| && h in init[i].hosts {
          assert SoundSlice(r, hosts, plan[i]);
          SameTarget(r, plan, i, |init|);
        }
      }
    }
  }

  lemma AscendingHasNoRepeats(hosts: seq<string>)
    requires Ascending(hosts, Before)
    ensures NoRepeats(hosts)
  {
    BeforeIsStrictTotal();
  }

  /** The stored host counts add up to the number of distinct hosts exactly when stripping loses
    no host of any slice; names without surrounding blanks always meet this. */
  lemma StoredTotalIff(r: Routing, hosts: set<string>, plan: seq<Slice>)
    requires IsPlan(r, hosts, plan)
    ensures StoredTotal(plan) == |hosts| <==> forall i :: 0 <= i < |plan| ==> KeptByStrip(plan[i].hosts)
    ensures (forall h :: h in hosts ==> h != "" && Stripped(h)) ==> StoredTotal(plan) == |hosts|
  {
    PlannedTotalIs(r, hosts, plan);
    PlannedHostsAre(plan);
    assert hosts == PlannedHosts(plan) by {
      forall i, h | 0 <= i < |plan| && h in plan[i].hosts ensures h in hosts {
        assert SoundSlice(r, hosts, plan[i]);
      }
    }
    TotalsEqualIff(r, hosts, plan);
    if forall h :: h in hosts ==> h != "" && Stripped(h) {
      forall i | 0 <= i < |plan| ensures KeptByStrip(plan[i].hosts) {
        assert SoundSlice(r, hosts, plan[i]);
        forall h | h in plan[i].hosts ensures Strip(h) == h {
          StripIff(h);
        }
      }
    }
  }

  /** Two hosts that differ in a trailing blank only: both are planned, one is stored. */
  lemma BlankHostLost() returns (r: Routing, plan: seq<Slice>)
    ensures IsPlan(r, {"a", "a "}, plan) && PlannedTotal(plan) == 2 && StoredTotal(plan) < 2
  {
    r := Routing((h: string) => true, (h: string) => NoReference, (s: string) => None, None, NoCrew,
                 (id: RunnerId) => true, (id: RunnerId) => "", (id: RunnerId) => "", (s: string) => s);
    plan := [Slice(Local, "local", "localhost", ["a", "a "])];
    var hosts := plan[0].hosts;
    assert hosts[0] == "a" && hosts[1] == "a " && "a "[1..] == " " && "a"[1..] == "" && Before("a", "a ");
    assert plan[..0] == [] && PlannedTotal(plan) == |hosts|;
    assert SoundSlice(r, {"a", "a "}, plan[0]);
    StripBlank();
    assert !KeptByStrip(hosts) && StoredTotal(plan) == |StoredHosts(hosts)|;
    StoredCountIff(hosts);
  }

  lemma StripBlank()
    ensures Strip("a") == Strip("a ") == "a"
  {
    assert StripLeft("a ") == "a " && "a "[..1] == "a";
  }

  ghost predicate AllKept(plan: seq<Slice>) {
    forall i :: 0 <= i < |plan| ==> KeptByStrip(plan[i].hosts)
  }

  lemma AllKeptSplit(plan: seq<Slice>)
    requires plan != []
    ensures AllKept(plan) <==> AllKept(plan[..|plan| - 1]) && KeptByStrip(plan[|plan| - 1].hosts)
  {
    var init := plan[..|plan| - 1];
    assert forall i :: 0 <= i < |init| ==> init[i] == plan[i];
  }

  lemma {:induction false} TotalsEqualIff(r: Routing, hosts: set<string>, plan: seq<Slice>)
    requires forall i :: 0 <= i < |plan| ==> SoundSlice(r, hosts, plan[i])
    ensures StoredTotal(plan) <= PlannedTotal(plan)
    ensures StoredTotal(plan) == PlannedTotal(plan) <==> AllKept(plan)
  {
    if plan != [] {
      var (init, last) := (plan[..|plan| - 1], plan[|plan| - 1]);
      assert SoundSlice(r, hosts, last);
      TotalsEqualIff(r, hosts, init);
      StoredCountIff(last.hosts);
      AllKeptSplit(plan);
    }
  }
}
