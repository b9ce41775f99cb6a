/** The dependency check of workflow steps (app/routes.py): missing and self dependencies, and a
  depth-first search for cycles. */
module StepGraph {
  /** For each position 1..n, the positions it depends on, as submitted. */
  type Dependencies = map<int, seq<int>>

  datatype StepError = MissingDependency(position: int) | SelfDependency(position: int) | CyclicDependencies

  // ----- Cycles ------------------------------------------------------------------------------

  /** A dependency on an existing position. */
  predicate Edge(deps: Dependencies, a: int, b: int) {
    a in deps && b in deps && b in deps[a]
  }

  /** Consecutive positions are dependencies. */
  predicate IsPath(deps: Dependencies, p: seq<int>) {
    forall i :: 0 <= i < |p| - 1 ==> Edge(deps, p[i], p[i + 1])
  }

  predicate IsCycle(deps: Dependencies, p: seq<int>) {
    |p| >= 2 && p[0] == p[|p| - 1] && IsPath(deps, p)
  }

  ghost predicate HasCycle(deps: Dependencies) {
    exists p :: IsCycle(deps, p)
  }

  /** Each position occurs once, after all its existing dependencies. */
  ghost predicate Ordered(deps: Dependencies, order: seq<int>) {
    && (forall i, j :: 0 <= i < j < |order| ==> order[i] != order[j])
    && (forall i, b :: 0 <= i < |order| && Edge(deps, order[i], b) ==> b in order[..i])
  }

  /** A topological order of all positions leaves no room for a cycle. */
  lemma OrderedHasNoCycle(deps: Dependencies, order: seq<int>)
    requires Ordered(deps, order) && forall a :: a in deps ==> a in order
    ensures !HasCycle(deps)
  {
    if p :| IsCycle(deps, p) {
      assert Edge(deps, p[0], p[1]);
      var i :| 0 <= i < |order| && order[i] == p[0];
      PathGoesDown(deps, order, p, i);
    }
  }

  /** Along a path the index in the order strictly falls. */
  lemma {:induction false} PathGoesDown(deps: Dependencies, order: seq<int>, p: seq<int>, i: nat)
    requires Ordered(deps, order) && |p| >= 2 && IsPath(deps, p) && i < |order| && order[i] == p[0]
    ensures p[|p| - 1] in order[..i]
    decreases |p|
  {
    assert Edge(deps, p[0], p[1]);
    var j :| 0 <= j < i && order[j] == p[1];
    if |p| > 2 {
      forall k | 0 <= k < |p[1..]| - 1 ensures Edge(deps, p[1..][k], p[1..][k + 1]) {
        assert Edge(deps, p[k + 1], p[k + 2]);
      }
      PathGoesDown(deps, order, p[1..], j);
    }
  }

  lemma OrderedGrows(deps: Dependencies, order: seq<int>, position: int)
    requires Ordered(deps, order) && position !in order
    requires forall b :: Edge(deps, position, b) ==> b in order
    ensures Ordered(deps, order + [position])
  {
    var grown := order + [position];
    forall i, b | 0 <= i < |grown| && Edge(deps, grown[i], b) ensures b in grown[..i] {
      assert i < |order| ==> grown[..i] == order[..i];
      assert grown[..|order|] == order;
    }
  }

  // ----- The search --------------------------------------------------------------------------

  /** The closure variables of the check: the sets `visiting` and `visited`. */
  class Search {
    const deps: Dependencies
    var visiting: set<int>
    var visited: set<int>
    ghost var stack: seq<int>  // the positions being visited, outermost first
    ghost var order: seq<int>  // the visited positions, in the order they were finished

    ghost predicate Valid()
      reads this
    {
      && visiting == (set a | a in stack) && visited == (set a | a in order)
      && visiting <= deps.Keys && visited <= deps.Keys && visiting !! visited
      && IsPath(deps, stack) && (forall i, j :: 0 <= i < j < |stack| ==> stack[i] != stack[j])
      && Ordered(deps, order)
    }

    constructor (deps: Dependencies)
      ensures Valid() && this.deps == deps && stack == [] && order == []
    {
      this.deps := deps;
      visiting, visited, stack, order := {}, {}, [], [];
    }

    /** The inner function `visit`. */
    method Visit(position: int) returns (cyclic: bool)
      requires Valid() && position in deps
      requires stack != [] ==> Edge(deps, stack[|stack| - 1], position)
      modifies this
      ensures cyclic ==> HasCycle(deps)
      ensures !cyclic ==> Valid() && stack == old(stack) && position in visited
      ensures !cyclic ==> old(order) <= order && old(visited) <= visited
      decreases deps.Keys - visiting - visited
    {
      if position in visiting {
        ghost var i :| 0 <= i < |stack| && stack[i] == position;
        assert IsCycle(deps, stack[i..] + [position]);
        return true;
      }
      if position in visited {
        return false;
      }
      Enter(position);
      var dependencies := deps[position];
      for n := 0 to |dependencies|
        invariant Valid() && stack == old(stack) + [position]
        invariant old(order) <= order && old(visited) <= visited
        invariant forall k :: 0 <= k < n && dependencies[k] in deps ==> dependencies[k] in visited
      {
        if dependencies[n] in deps {
          assert position in visiting && visiting == old(visiting) + {position};
          assert position in old(deps.Keys - visiting - visited);
          var found := Visit(dependencies[n]);
          if found {
            return true;
          }
        }
      }
      Leave(position);
      return false;
    }

    /** `visiting.add(position)` */
    method Enter(position: int)
      requires Valid() && position in deps && position !in visiting && position !in visited
      requires stack != [] ==> Edge(deps, stack[|stack| - 1], position)
      modifies this`visiting, this`stack
      ensures Valid() && stack == old(stack) + [position] && visiting == old(visiting) + {position}
    {
      visiting, stack := visiting + {position}, stack + [position];
    }

    /** `visiting.remove(position)` and `visited.add(position)` */
    method Leave(position: int)
      requires Valid() && stack != [] && stack[|stack| - 1] == position
      requires forall b :: Edge(deps, position, b) ==> b in visited
      modifies this
      ensures Valid() && stack == old(stack)[..|old(stack)| - 1] && order == old(order) + [position]
      ensures visited == old(visited) + {position}
    {
      ghost var outer := stack[..|stack| - 1];
      assert stack == outer + [position] && position in visiting;
      OrderedGrows(deps, order, position);
      visiting, stack := visiting - {position}, outer;
      visited, order := visited + {position}, order + [position];
      assert forall k :: 0 <= k < |stack| - 1 ==> Edge(deps, stack[k], stack[k + 1]);
    }

    /** `any(visit(position) for position in dependency_map)`: stops at the first cycle. */
    method AnyCycle(count: nat) returns (cyclic: bool)
      requires Valid() && stack == [] && order == [] && forall a :: a in deps <==> 1 <= a <= count
      modifies this
      ensures cyclic <==> HasCycle(deps)
      ensures !cyclic ==> Ordered(deps, order) && forall a :: a in deps <==> a in order
    {
      for position := 1 to count + 1
        invariant Valid() && stack == []
        invariant forall a :: 1 <= a < position ==> a in visited
      {
        cyclic := Visit(position);
        if cyclic {
          return;
        }
      }
      assert forall a :: a in visited <==> a in order;
      OrderedHasNoCycle(deps, order);
      return false;
    }
  }

  // ----- All dependency errors ---------------------------------------------------------------

  function Row(rows: seq<seq<int>>, position: int): seq<int>
    requires 1 <= position <= |rows|
  {
    rows[position - 1]
  }

  /** The submitted rows, numbered from 1. */
  function Numbered(rows: seq<seq<int>>): Dependencies {
    map p | 1 <= p <= |rows| :: Row(rows, p)
  }

  predicate HasMissing(dependencies: seq<int>, count: nat) {
    exists k :: 0 <= k < |dependencies| && !(1 <= dependencies[k] <= count)
  }

  /** Both kinds of reference error, for the first n positions. */
  ghost predicate ReferenceErrors(rows: seq<seq<int>>, n: int, errors: seq<StepError>)
    requires n <= |rows|
  {
    && CyclicDependencies !in errors
    && (forall p :: MissingDependency(p) in errors <==> 1 <= p <= n && HasMissing(Row(rows, p), |rows|))
    && (forall p :: SelfDependency(p) in errors <==> 1 <= p <= n && p in Row(rows, p))
  }

  /** The errors about the dependencies of one step. */
  method CheckReferences(dependencies: seq<int>, position: int, count: nat) returns (errors: seq<StepError>)
    requires 1 <= position <= count
    ensures forall e :: e in errors <==>
      (e == MissingDependency(position) && HasMissing(dependencies, count))
        || (e == SelfDependency(position) && position in dependencies)
  {
    errors := [];
    for k := 0 to |dependencies|
      invariant forall e :: e in errors <==>
        (e == MissingDependency(position) && HasMissing(dependencies[..k], count))
          || (e == SelfDependency(position) && position in dependencies[..k])
    {
      var dependency := dependencies[k];
      assert dependencies[..k + 1] == dependencies[..k] + [dependency];
      assert dependencies[..k + 1][k] == dependency;
      if dependency < 1 || dependency > count {
        errors := errors + [MissingDependency(position)];
      } else if dependency == position {
        errors := errors + [SelfDependency(position)];
      }
    }
    assert dependencies[..|dependencies|] == dependencies;
  }

  /** The dependency part of `_validate_project_steps`: each error is reported exactly when it
    is due, and the list is empty exactly for in-range, acyclic dependencies. */
  method ValidateDependencies(rows: seq<seq<int>>) returns (errors: seq<StepError>)
    ensures CyclicDependencies in errors <==> HasCycle(Numbered(rows))
    ensures forall p :: MissingDependency(p) in errors <==> 1 <= p <= |rows| && HasMissing(Row(rows, p), |rows|)
    ensures forall p :: SelfDependency(p) in errors <==> 1 <= p <= |rows| && p in Row(rows, p)
    ensures forall n :: 0 <= n < |rows| ==>
      (MissingDependency(n + 1) in errors <==>
         exists k :: 0 <= k < |rows[n]| && (rows[n][k] <= 0 || rows[n][k] > |rows|))
    ensures errors == [] <==>
      !HasCycle(Numbered(rows)) && forall p :: 1 <= p <= |rows| ==> !HasMissing(Row(rows, p), |rows|)
  {
    errors := [];
    for n := 0 to |rows|
      invariant ReferenceErrors(rows, n, errors)
    {
      var more := CheckReferences(rows[n], n + 1, |rows|);
      assert rows[n] == Row(rows, n + 1);
      errors := errors + more;
    }
    var search := new Search(Numbered(rows));
    var cyclic := search.AnyCycle(|rows|);
    if cyclic {
      errors := errors + [CyclicDependencies];
    }
    if errors != [] {
      NonEmptyErrors(rows, errors);
    }
  }

  lemma NonEmptyErrors(rows: seq<seq<int>>, errors: seq<StepError>)
    requires errors != [] && (CyclicDependencies in errors ==> HasCycle(Numbered(rows)))
    requires forall p :: MissingDependency(p) in errors ==> 1 <= p <= |rows| && HasMissing(Row(rows, p), |rows|)
    requires forall p :: SelfDependency(p) in errors ==> 1 <= p <= |rows| && p in Row(rows, p)
    ensures HasCycle(Numbered(rows)) || exists p :: 1 <= p <= |rows| && HasMissing(Row(rows, p), |rows|)
  {
    match errors[0]
    case MissingDependency(p) => assert MissingDependency(p) in errors;
    case SelfDependency(p) =>
      assert SelfDependency(p) in errors;
      assert IsCycle(Numbered(rows), [p, p]);
    case CyclicDependencies => assert CyclicDependencies in errors;
  }
}
