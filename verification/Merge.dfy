/** The recursive merge of two inventory values (app/services/composite_inventory.py),
  and the partial join it computes. */
module Merge {
  import opened Options
  import opened Values

  // ----- The operation -------------------------------------------------------------------

  /** Append the incoming items that are not present yet; earlier repeats are kept. */
  function AppendUnique(existing: seq<Value>, incoming: seq<Value>): seq<Value>
    decreases |incoming|
  {
    if incoming == [] then existing
    else AppendUnique(if incoming[0] in existing then existing else existing + [incoming[0]], incoming[1..])
  }

  /** None stands for the conflict error. */
  function MergeValues(existing: Value, incoming: Value): Option<Value>
    decreases existing
  {
    match (existing, incoming)
    case (Object(e), Object(i)) =>
      if forall k :: k in e && k in i ==> MergeValues(e[k], i[k]).Some? then
        Some(Object(map k | k in e.Keys + i.Keys ::
          if k !in i then e[k] else if k !in e then i[k] else MergeValues(e[k], i[k]).value))
      else None
    case (Array(e), Array(i)) => Some(Array(AppendUnique(e, i)))
    case (Leaf(e), Leaf(i)) => if e == i then Some(existing) else None
    case _ => None
  }

  /** The object case, entry by entry. */
  ghost predicate FieldsMerged(e: map<string, Value>, i: map<string, Value>, r: map<string, Value>) {
    && r.Keys == e.Keys + i.Keys
    && forall k :: k in r ==>
         if k !in i then r[k] == e[k] else if k !in e then r[k] == i[k] else MergeValues(e[k], i[k]) == Some(r[k])
  }

  lemma FieldsMergedIff(e: map<string, Value>, i: map<string, Value>, r: map<string, Value>)
    ensures FieldsMerged(e, i, r) <==> MergeValues(Object(e), Object(i)) == Some(Object(r))
  {
    if FieldsMerged(e, i, r) {
      assert forall k :: k in e && k in i ==> k in r && MergeValues(e[k], i[k]).Some?;
      assert MergeValues(Object(e), Object(i)).value.fields == r;
    }
  }

  /** Sequential merge of a list of values into an accumulator. */
  function MergeAll(acc: Value, rest: seq<Value>): Option<Value>
    decreases |rest|
  {
    if rest == [] then Some(acc)
    else match MergeValues(acc, rest[0])
      case None => None
      case Some(next) => MergeAll(next, rest[1..])
  }

  /** `_append_unique`: the loop that grows the existing list. */
  method AppendUniqueLoop(existing: seq<Value>, incoming: seq<Value>) returns (result: seq<Value>)
    ensures result == AppendUnique(existing, incoming)
  {
    result := existing;
    for n := 0 to |incoming|
      invariant AppendUnique(result, incoming[n..]) == AppendUnique(existing, incoming)
    {
      if incoming[n] !in result {
        result := result + [incoming[n]];
      }
    }
  }

  /** `_merge_value`: the loop that assigns the keys of the existing dictionary one by one and
    stops at the first conflict. */
  method MergeLoop(existing: Value, incoming: Value) returns (result: Option<Value>)
    ensures result == MergeValues(existing, incoming)
    decreases existing
  {
    if existing.Object? {
      if !incoming.Object? {
        return None;
      }
      var fields, todo := existing.fields, incoming.fields.Keys;
      while todo != {}
        invariant todo <= incoming.fields.Keys
        invariant fields.Keys == existing.fields.Keys + (incoming.fields.Keys - todo)
        invariant forall k :: k in existing.fields && (k in todo || k !in incoming.fields) ==>
          fields[k] == existing.fields[k]
        invariant forall k :: k in incoming.fields && k !in todo && k !in existing.fields ==>
          fields[k] == incoming.fields[k]
        invariant forall k :: k in incoming.fields && k !in todo && k in existing.fields ==>
          MergeValues(existing.fields[k], incoming.fields[k]) == Some(fields[k])
        decreases todo
      {
        var key :| key in todo;
        todo := todo - {key};
        if key !in fields {
          fields := fields[key := incoming.fields[key]];
        } else {
          var child := MergeLoop(existing.fields[key], incoming.fields[key]);
          if child.None? {
            return None;
          }
          fields := fields[key := child.value];
        }
      }
      assert MergeValues(existing, incoming).Some?;
      assert MergeValues(existing, incoming).value.fields == fields;
      return Some(Object(fields));
    }
    if existing.Array? {
      if !incoming.Array? {
        return None;
      }
      var items := AppendUniqueLoop(existing.items, incoming.items);
      return Some(Array(items));
    }
    return if existing == incoming then Some(existing) else None;
  }

  // ----- Independent definitions ---------------------------------------------------------

  /** No conflict anywhere: equal shapes and equal scalars on the shared paths. */
  predicate Compatible(a: Value, b: Value)
    decreases a
  {
    match (a, b)
    case (Object(x), Object(y)) => forall k :: k in x && k in y ==> Compatible(x[k], y[k])
    case (Array(_), Array(_)) => true
    case (Leaf(x), Leaf(y)) => x == y
    case _ => false
  }

  /** Everything `lo` says is still said by `hi`. */
  predicate Absorbs(hi: Value, lo: Value)
    decreases lo
  {
    match (hi, lo)
    case (Object(h), Object(l)) => forall k :: k in l ==> k in h && Absorbs(h[k], l[k])
    case (Array(h), Array(l)) => forall x :: x in l ==> x in h
    case (Leaf(h), Leaf(l)) => h == l
    case _ => false
  }

  /** Equal up to the order of list items. */
  predicate Rearranged(a: Value, b: Value)
    decreases a
  {
    match (a, b)
    case (Object(x), Object(y)) => x.Keys == y.Keys && forall k :: k in x ==> Rearranged(x[k], y[k])
    case (Array(x), Array(y)) => multiset(x) == multiset(y)
    case (Leaf(x), Leaf(y)) => x == y
    case _ => false
  }

  /** An item that both lists hold is repeated equally often, any other item occurs once. */
  predicate SameRepeats(x: seq<Value>, y: seq<Value>) {
    && (forall v :: v in x ==> multiset(x)[v] == if v in y then multiset(y)[v] else 1)
    && (forall v :: v in y ==> multiset(y)[v] == if v in x then multiset(x)[v] else 1)
  }

  /** SameRepeats on every pair of lists at a shared path. */
  predicate RepeatsAgree(a: Value, b: Value)
    decreases a
  {
    match (a, b)
    case (Object(x), Object(y)) => forall k :: k in x && k in y ==> RepeatsAgree(x[k], y[k])
    case (Array(x), Array(y)) => SameRepeats(x, y)
    case _ => true
  }

  /** Each list item of `lo` occurs in `hi` exactly as often. */
  predicate KeepsRepeats(hi: Value, lo: Value)
    decreases lo
  {
    match (hi, lo)
    case (Object(h), Object(l)) => forall k :: k in l ==> k in h && KeepsRepeats(h[k], l[k])
    case (Array(h), Array(l)) => forall v :: v in l ==> multiset(h)[v] == multiset(l)[v]
    case _ => true
  }

  // ----- Lists ---------------------------------------------------------------------------

  lemma {:induction false} AppendUniqueMembers(e: seq<Value>, i: seq<Value>)
    ensures e <= AppendUnique(e, i)
    ensures forall x :: x in AppendUnique(e, i) <==> x in e || x in i
    decreases |i|
  {
    if i != [] {
      var next := if i[0] in e then e else e + [i[0]];
      AppendUniqueMembers(next, i[1..]);
      assert i == [i[0]] + i[1..];
    }
  }

  lemma {:induction false} AppendUniqueRepeats(e: seq<Value>, i: seq<Value>)
    ensures forall x :: multiset(AppendUnique(e, i))[x] == if x in e then multiset(e)[x] else if x in i then 1 else 0
    decreases |i|
  {
    if i != [] {
      var next := if i[0] in e then e else e + [i[0]];
      AppendUniqueRepeats(next, i[1..]);
      assert i == [i[0]] + i[1..];
    }
  }

  lemma {:induction false} AppendUniqueAbsorbed(e: seq<Value>, i: seq<Value>)
    ensures AppendUnique(e, i) == e <==> forall x :: x in i ==> x in e
    decreases |i|
  {
    AppendUniqueMembers(e, i);
    if i != [] && i[0] in e {
      AppendUniqueAbsorbed(e, i[1..]);
      assert i == [i[0]] + i[1..];
    }
  }

  lemma {:induction false} AppendUniqueConcat(e: seq<Value>, i: seq<Value>, j: seq<Value>)
    ensures AppendUnique(e, i + j) == AppendUnique(AppendUnique(e, i), j)
    decreases |i|
  {
    if i == [] {
      assert i + j == j;
    } else {
      assert (i + j)[1..] == i[1..] + j;
      AppendUniqueConcat(if i[0] in e then e else e + [i[0]], i[1..], j);
    }
  }

  lemma {:induction false} AppendUniqueAssociative(e: seq<Value>, i: seq<Value>, j: seq<Value>)
    ensures AppendUnique(AppendUnique(e, i), j) == AppendUnique(e, AppendUnique(i, j))
    decreases |j|
  {
    if j != [] {
      var x := j[0];
      AppendUniqueMembers(e, i);
      if x in i {
        AppendUniqueAssociative(e, i, j[1..]);
      } else {
        AppendUniqueConcat(e, i, [x]);
        AppendUniqueAssociative(e, i + [x], j[1..]);
      }
    }
  }

  // ----- One merge -----------------------------------------------------------------------

  lemma {:induction false} MergeSucceedsIff(a: Value, b: Value)
    ensures MergeValues(a, b).Some? <==> Compatible(a, b)
    decreases a
  {
    if a.Object? && b.Object? {
      forall k | k in a.fields && k in b.fields {
        MergeSucceedsIff(a.fields[k], b.fields[k]);
      }
    }
  }

  lemma {:induction false} CompatibleSymmetric(a: Value, b: Value)
    ensures Compatible(a, b) <==> Compatible(b, a)
    decreases a
  {
    if a.Object? && b.Object? {
      forall k | k in a.fields && k in b.fields {
        CompatibleSymmetric(a.fields[k], b.fields[k]);
      }
    }
  }

  lemma {:induction false} CompatibleReflexive(a: Value)
    ensures Compatible(a, a)
  {
    if a.Object? {
      forall k | k in a.fields {
        CompatibleReflexive(a.fields[k]);
      }
    }
  }

  /** The merge of two values, then a third. */
  function MergeLeft(a: Value, b: Value, c: Value): Option<Value> {
    match MergeValues(a, b) case None => None case Some(ab) => MergeValues(ab, c)
  }

  /** The first value, then the merge of the other two. */
  function MergeRight(a: Value, b: Value, c: Value): Option<Value> {
    match MergeValues(b, c) case None => None case Some(bc) => MergeValues(a, bc)
  }

  ghost predicate FieldsAssociate(x: map<string, Value>, y: map<string, Value>, z: map<string, Value>) {
    forall k :: k in x && k in y && k in z ==> MergeLeft(x[k], y[k], z[k]) == MergeRight(x[k], y[k], z[k])
  }

  lemma {:induction false} RightFromLeft(a: Value, b: Value, c: Value)
    requires a.Object? && b.Object? && c.Object? && FieldsAssociate(a.fields, b.fields, c.fields)
    requires MergeLeft(a, b, c).Some?
    ensures MergeRight(a, b, c).Some?
  {
    var (x, y, z) := (a.fields, b.fields, c.fields);
    var ab := MergeValues(a, b).value.fields;
    forall k | k in y && k in z ensures MergeValues(y[k], z[k]).Some? {
      if k in x {
        assert MergeValues(ab[k], z[k]).Some?;
      } else {
        assert ab[k] == y[k];
      }
    }
    assert MergeValues(b, c).Some?;
    var bc := MergeValues(b, c).value.fields;
    forall k | k in x && k in bc ensures MergeValues(x[k], bc[k]).Some? {
      if k in y {
        assert MergeValues(x[k], y[k]).Some?;
      } else {
        assert ab[k] == x[k];
      }
    }
  }

  lemma {:induction false} LeftFromRight(a: Value, b: Value, c: Value)
    requires a.Object? && b.Object? && c.Object? && FieldsAssociate(a.fields, b.fields, c.fields)
    requires MergeRight(a, b, c).Some?
    ensures MergeLeft(a, b, c).Some?
  {
    var (x, y, z) := (a.fields, b.fields, c.fields);
    var bc := MergeValues(b, c).value.fields;
    forall k | k in x && k in y ensures MergeValues(x[k], y[k]).Some? {
      if k in z {
        assert MergeValues(x[k], bc[k]).Some?;
      } else {
        assert bc[k] == y[k];
      }
    }
    assert MergeValues(a, b).Some?;
    var ab := MergeValues(a, b).value.fields;
    forall k | k in ab && k in z ensures MergeValues(ab[k], z[k]).Some? {
      if k in y {
        assert MergeValues(y[k], z[k]).Some?;
      } else {
        assert bc[k] == z[k];
      }
    }
  }

  lemma {:induction false} AssociativeOnFields(a: Value, b: Value, c: Value)
    requires a.Object? && b.Object? && c.Object? && FieldsAssociate(a.fields, b.fields, c.fields)
    ensures MergeLeft(a, b, c) == MergeRight(a, b, c)
  {
    if MergeLeft(a, b, c).Some? {
      RightFromLeft(a, b, c);
      assert MergeLeft(a, b, c).value.fields == MergeRight(a, b, c).value.fields;
    } else if MergeRight(a, b, c).Some? {
      LeftFromRight(a, b, c);
    }
  }

  /** Both groupings of three values conflict together, and give exactly the same value. */
  lemma {:induction false} MergeAssociative(a: Value, b: Value, c: Value)
    ensures MergeLeft(a, b, c) == MergeRight(a, b, c)
    decreases a
  {
    match (a, b, c)
    case (Object(x), Object(y), Object(z)) =>
      forall k | k in x && k in y && k in z {
        MergeAssociative(x[k], y[k], z[k]);
      }
      AssociativeOnFields(a, b, c);
    case (Array(x), Array(y), Array(z)) => AppendUniqueAssociative(x, y, z);
    case _ =>
  }

  lemma {:induction false} MergeAbsorbedIff(a: Value, b: Value)
    ensures MergeValues(a, b) == Some(a) <==> Absorbs(a, b)
    decreases b
  {
    match (a, b)
    case (Object(x), Object(y)) =>
      forall k | k in x && k in y {
        MergeAbsorbedIff(x[k], y[k]);
      }
      if Absorbs(a, b) {
        assert MergeValues(a, b).Some?;
        assert MergeValues(a, b).value.fields == x;
      }
    case (Array(x), Array(y)) => AppendUniqueAbsorbed(x, y);
    case _ =>
  }

  lemma {:induction false} MergeIdempotent(a: Value)
    ensures MergeValues(a, a) == Some(a)
  {
    AbsorbsReflexive(a);
    MergeAbsorbedIff(a, a);
  }

  lemma {:induction false} AbsorbsReflexive(a: Value)
    ensures Absorbs(a, a)
  {
    if a.Object? {
      forall k | k in a.fields {
        AbsorbsReflexive(a.fields[k]);
      }
    }
  }

  lemma {:induction false} AbsorbsTransitive(a: Value, b: Value, c: Value)
    requires Absorbs(a, b) && Absorbs(b, c)
    ensures Absorbs(a, c)
    decreases c
  {
    if c.Object? {
      forall k | k in c.fields ensures k in a.fields && Absorbs(a.fields[k], c.fields[k]) {
        AbsorbsTransitive(a.fields[k], b.fields[k], c.fields[k]);
      }
    }
  }

  /** A successful merge is the least value that absorbs both inputs; and whenever any value
    absorbs both inputs, the merge succeeds. */
  lemma {:induction false} MergeIsLeastUpperBound(a: Value, b: Value)
    ensures MergeValues(a, b).Some? ==> Absorbs(MergeValues(a, b).value, a) && Absorbs(MergeValues(a, b).value, b)
    ensures forall u :: Absorbs(u, a) && Absorbs(u, b) ==>
      MergeValues(a, b).Some? && Absorbs(u, MergeValues(a, b).value)
  {
    if MergeValues(a, b).Some? {
      MergeAbsorbsInputs(a, b);
    }
    forall u | Absorbs(u, a) && Absorbs(u, b)
      ensures MergeValues(a, b).Some? && Absorbs(u, MergeValues(a, b).value)
    {
      MergeAbsorbedIff(u, a);
      MergeAbsorbedIff(u, b);
      MergeAssociative(u, a, b);
      MergeAbsorbedIff(u, MergeValues(a, b).value);
    }
  }

  lemma {:induction false} MergeAbsorbsInputs(a: Value, b: Value)
    requires MergeValues(a, b).Some?
    ensures Absorbs(MergeValues(a, b).value, a) && Absorbs(MergeValues(a, b).value, b)
    decreases a
  {
    match (a, b)
    case (Object(x), Object(y)) =>
      var m := MergeValues(a, b).value.fields;
      forall k | k in x ensures Absorbs(m[k], x[k]) {
        if k in y {
          MergeAbsorbsInputs(x[k], y[k]);
        } else {
          AbsorbsReflexive(x[k]);
        }
      }
      forall k | k in y ensures Absorbs(m[k], y[k]) {
        if k in x {
          MergeAbsorbsInputs(x[k], y[k]);
        } else {
          AbsorbsReflexive(y[k]);
        }
      }
    case (Array(x), Array(y)) => AppendUniqueMembers(x, y);
    case _ =>
  }

  /** Merging the other way round gives the same value up to the order of list items exactly
    when the two inputs agree on how often list items are repeated. */
  lemma {:induction false} MergeCommutesIff(a: Value, b: Value)
    requires Compatible(a, b)
    ensures MergeValues(a, b).Some? && MergeValues(b, a).Some?
    ensures Rearranged(MergeValues(a, b).value, MergeValues(b, a).value) <==> RepeatsAgree(a, b)
    decreases a
  {
    MergeSucceedsIff(a, b);
    CompatibleSymmetric(a, b);
    MergeSucceedsIff(b, a);
    match (a, b)
    case (Object(x), Object(y)) =>
      var ab, ba := MergeValues(a, b).value.fields, MergeValues(b, a).value.fields;
      forall k | k in ab ensures Rearranged(ab[k], ba[k]) <==> (k in x && k in y ==> RepeatsAgree(x[k], y[k])) {
        if k in x && k in y {
          MergeCommutesIff(x[k], y[k]);
        } else {
          RearrangedReflexive(ab[k]);
        }
      }
      assert Rearranged(Object(ab), Object(ba)) <==> forall k :: k in ab ==> Rearranged(ab[k], ba[k]);
      assert forall k :: k in x && k in y ==> k in ab;
    case (Array(x), Array(y)) => AppendUniqueCommutesIff(x, y);
    case _ =>
  }

  lemma {:induction false} AppendUniqueCommutesIff(x: seq<Value>, y: seq<Value>)
    ensures multiset(AppendUnique(x, y)) == multiset(AppendUnique(y, x)) <==> SameRepeats(x, y)
  {
    AppendUniqueRepeats(x, y);
    AppendUniqueRepeats(y, x);
    var xy, yx := multiset(AppendUnique(x, y)), multiset(AppendUnique(y, x));
    if xy == yx {
      forall v | v in x ensures multiset(x)[v] == if v in y then multiset(y)[v] else 1 {
        assert xy[v] == yx[v];
      }
      forall v | v in y ensures multiset(y)[v] == if v in x then multiset(x)[v] else 1 {
        assert xy[v] == yx[v];
      }
    }
    if SameRepeats(x, y) {
      forall v ensures xy[v] == yx[v] {
      }
    }
  }

  /** Two inventories that differ only in repeats: the order of the sources then shows. */
  lemma RepeatsMakeOrderVisible()
    ensures var a, b := Array([Leaf(Null), Leaf(Null)]), Array([Leaf(Null)]);
      Compatible(a, b) && !Rearranged(MergeValues(a, b).value, MergeValues(b, a).value)
  {
    var a, b := Array([Leaf(Null), Leaf(Null)]), Array([Leaf(Null)]);
    assert MergeValues(a, b).value.items == a.items;
    assert MergeValues(b, a).value.items == b.items;
    assert multiset(a.items)[Leaf(Null)] == 2 && multiset(b.items)[Leaf(Null)] == 1;
  }

  // ----- Equivalences --------------------------------------------------------------------

  lemma {:induction false} RearrangedReflexive(a: Value)
    ensures Rearranged(a, a)
  {
    if a.Object? {
      forall k | k in a.fields {
        RearrangedReflexive(a.fields[k]);
      }
    }
  }

  lemma {:induction false} RearrangedTransitive(a: Value, b: Value, c: Value)
    requires Rearranged(a, b) && Rearranged(b, c)
    ensures Rearranged(a, c)
    decreases a
  {
    if a.Object? {
      forall k | k in a.fields {
        RearrangedTransitive(a.fields[k], b.fields[k], c.fields[k]);
      }
    }
  }

  lemma {:induction false} RearrangedSymmetric(a: Value, b: Value)
    requires Rearranged(a, b)
    ensures Rearranged(b, a)
    decreases a
  {
    if a.Object? {
      forall k | k in a.fields {
        RearrangedSymmetric(a.fields[k], b.fields[k]);
      }
    }
  }

  lemma {:induction false} RepeatsAgreeReflexive(a: Value)
    ensures RepeatsAgree(a, a)
  {
    if a.Object? {
      forall k | k in a.fields {
        RepeatsAgreeReflexive(a.fields[k]);
      }
    }
  }

  lemma {:induction false} RepeatsAgreeSymmetric(a: Value, b: Value)
    requires RepeatsAgree(a, b)
    ensures RepeatsAgree(b, a)
    decreases a
  {
    if a.Object? && b.Object? {
      forall k | k in a.fields && k in b.fields {
        RepeatsAgreeSymmetric(a.fields[k], b.fields[k]);
      }
    }
  }

  lemma {:induction false} MutualAbsorptionAndRepeats(a: Value, b: Value)
    requires Absorbs(a, b) && Absorbs(b, a) && RepeatsAgree(a, b)
    ensures Rearranged(a, b)
    decreases a
  {
    match (a, b)
    case (Object(x), Object(y)) =>
      forall k | k in x ensures k in y && Rearranged(x[k], y[k]) {
        MutualAbsorptionAndRepeats(x[k], y[k]);
      }
    case (Array(x), Array(y)) =>
      forall v ensures multiset(x)[v] == multiset(y)[v] {
        assert v in x <==> v in y;
        assert v in multiset(x) <==> v in x;
      }
    case _ =>
  }

  lemma {:induction false} MergeKeepsCompatibility(a: Value, b: Value, c: Value)
    requires Compatible(a, b)
    ensures MergeValues(a, b).Some?
    ensures Compatible(MergeValues(a, b).value, c) <==> Compatible(a, c) && Compatible(b, c)
    decreases a
  {
    MergeSucceedsIff(a, b);
    if a.Object? && b.Object? && c.Object? {
      var (x, y, z) := (a.fields, b.fields, c.fields);
      var m := MergeValues(a, b).value.fields;
      forall k | k in m && k in z
        ensures Compatible(m[k], z[k]) <==> (k in x ==> Compatible(x[k], z[k])) && (k in y ==> Compatible(y[k], z[k]))
      {
        if k in x && k in y {
          MergeKeepsCompatibility(x[k], y[k], z[k]);
        }
      }
      assert forall k :: k in x || k in y <==> k in m;
    }
  }

  lemma {:induction false} MergeKeepsRepeatsAgree(a: Value, b: Value, w: Value)
    requires MergeValues(a, b).Some?
    requires RepeatsAgree(a, w) && RepeatsAgree(b, w) && RepeatsAgree(a, b)
    ensures RepeatsAgree(MergeValues(a, b).value, w)
    decreases a
  {
    match (a, b, w)
    case (Object(x), Object(y), Object(z)) =>
      var m := MergeValues(a, b).value.fields;
      forall k | k in m && k in z ensures RepeatsAgree(m[k], z[k]) {
        if k in x && k in y {
          MergeKeepsRepeatsAgree(x[k], y[k], z[k]);
        }
      }
    case (Array(x), Array(y), Array(z)) =>
      AppendUniqueRepeats(x, y);
      AppendUniqueMembers(x, y);
    case _ =>
  }

  lemma {:induction false} MergeKeepsRepeats(a: Value, b: Value)
    requires MergeValues(a, b).Some?
    ensures KeepsRepeats(MergeValues(a, b).value, a)
    decreases a
  {
    match (a, b)
    case (Object(x), Object(y)) =>
      var m := MergeValues(a, b).value.fields;
      forall k | k in x ensures KeepsRepeats(m[k], x[k]) {
        if k in y {
          MergeKeepsRepeats(x[k], y[k]);
        } else {
          KeepsRepeatsReflexive(x[k]);
        }
      }
    case (Array(x), Array(y)) => AppendUniqueRepeats(x, y);
    case _ =>
  }

  lemma {:induction false} KeepsRepeatsReflexive(a: Value)
    ensures KeepsRepeats(a, a)
  {
    if a.Object? {
      forall k | k in a.fields {
        KeepsRepeatsReflexive(a.fields[k]);
      }
    }
  }

  lemma {:induction false} KeepsRepeatsTransitive(a: Value, b: Value, c: Value)
    requires KeepsRepeats(a, b) && KeepsRepeats(b, c) && Absorbs(b, c)
    ensures KeepsRepeats(a, c)
    decreases c
  {
    if a.Object? && b.Object? && c.Object? {
      forall k | k in c.fields {
        KeepsRepeatsTransitive(a.fields[k], b.fields[k], c.fields[k]);
      }
    }
  }

  /** Values that hold the same content, and that two rearranged values kept as they were,
    are rearrangements of each other too. */
  lemma {:induction false} RearrangedPulledBack(a: Value, b: Value, m: Value, n: Value)
    requires Absorbs(a, b) && Absorbs(b, a)
    requires KeepsRepeats(m, a) && KeepsRepeats(n, b) && Rearranged(m, n) && Absorbs(m, a)
    ensures Rearranged(a, b)
    decreases a
  {
    match (a, b)
    case (Object(x), Object(y)) =>
      forall k | k in x ensures k in y && Rearranged(x[k], y[k]) {
        RearrangedPulledBack(x[k], y[k], m.fields[k], n.fields[k]);
      }
    case (Array(x), Array(y)) =>
      forall v ensures multiset(x)[v] == multiset(y)[v] {
        assert v in x <==> v in y;
        assert v in multiset(x) <==> v in x;
      }
    case _ =>
  }

  // ----- Many merges ---------------------------------------------------------------------

  ghost predicate PairwiseCompatible(vs: seq<Value>) {
    forall u, v :: u in vs && v in vs ==> Compatible(u, v)
  }

  ghost predicate PairwiseRepeatsAgree(vs: seq<Value>) {
    forall u, v :: u in vs && v in vs ==> RepeatsAgree(u, v)
  }

  lemma {:induction false} MergeAllSucceedsIff(acc: Value, rest: seq<Value>)
    ensures MergeAll(acc, rest).Some? <==> PairwiseCompatible([acc] + rest)
    decreases |rest|
  {
    CompatibleReflexive(acc);
    if rest != [] {
      var (b, tail) := (rest[0], rest[1..]);
      assert rest == [b] + tail;
      MergeSucceedsIff(acc, b);
      CompatibleReflexive(b);
      CompatibleSymmetric(acc, b);
      if Compatible(acc, b) {
        var m := MergeValues(acc, b).value;
        MergeAllSucceedsIff(m, tail);
        CompatibleReflexive(m);
        forall v ensures Compatible(m, v) <==> Compatible(acc, v) && Compatible(b, v) {
          MergeKeepsCompatibility(acc, b, v);
        }
        forall u, v ensures Compatible(u, v) <==> Compatible(v, u) {
          CompatibleSymmetric(u, v);
        }
      } else {
        assert acc in [acc] + rest && b in [acc] + rest;
      }
    }
  }

  lemma {:induction false} MergeAllIsLeastUpperBound(acc: Value, rest: seq<Value>)
    requires MergeAll(acc, rest).Some?
    ensures forall v :: v in [acc] + rest ==> Absorbs(MergeAll(acc, rest).value, v)
    ensures forall u :: (forall v :: v in [acc] + rest ==> Absorbs(u, v)) ==> Absorbs(u, MergeAll(acc, rest).value)
    decreases |rest|
  {
    if rest == [] {
      AbsorbsReflexive(acc);
    } else {
      var (m, tail) := (MergeValues(acc, rest[0]).value, rest[1..]);
      var result := MergeAll(m, tail).value;
      assert [acc] + rest == [acc, rest[0]] + tail;
      MergeIsLeastUpperBound(acc, rest[0]);
      MergeAllIsLeastUpperBound(m, tail);
      assert m in [m] + tail;
      AbsorbsTransitive(result, m, acc);
      AbsorbsTransitive(result, m, rest[0]);
      forall v | v in [acc] + rest ensures Absorbs(result, v) {
        assert v == acc || v == rest[0] || v in [m] + tail;
      }
      forall u | forall v :: v in [acc] + rest ==> Absorbs(u, v) ensures Absorbs(u, result) {
        assert acc in [acc] + rest && rest[0] in [acc] + rest;
        assert forall v :: v in [m] + tail ==> Absorbs(u, v);
      }
    }
  }

  lemma {:induction false} MergeAllRepeatsAgree(acc: Value, rest: seq<Value>, w: Value)
    requires MergeAll(acc, rest).Some? && PairwiseRepeatsAgree([acc] + rest)
    requires forall v :: v in [acc] + rest ==> RepeatsAgree(v, w)
    ensures RepeatsAgree(MergeAll(acc, rest).value, w)
    decreases |rest|
  {
    assert acc in [acc] + rest;
    if rest != [] {
      var (m, tail) := (MergeValues(acc, rest[0]).value, rest[1..]);
      assert [acc] + rest == [acc, rest[0]] + tail;
      RepeatsAgreeReflexive(m);
      forall v | v in tail || v == w ensures RepeatsAgree(m, v) {
        MergeKeepsRepeatsAgree(acc, rest[0], v);
      }
      forall v | v in tail ensures RepeatsAgree(v, m) {
        RepeatsAgreeSymmetric(m, v);
      }
      forall u, v | u in [m] + tail && v in [m] + tail ensures RepeatsAgree(u, v) {
        assert u != m ==> u in [acc] + rest;
        assert v != m ==> v in [acc] + rest;
      }
      MergeAllRepeatsAgree(m, tail, w);
    }
  }

  lemma {:induction false} MergeAllKeepsRepeats(acc: Value, rest: seq<Value>)
    requires MergeAll(acc, rest).Some?
    ensures KeepsRepeats(MergeAll(acc, rest).value, acc) && Absorbs(MergeAll(acc, rest).value, acc)
    decreases |rest|
  {
    if rest == [] {
      KeepsRepeatsReflexive(acc);
      AbsorbsReflexive(acc);
    } else {
      var m := MergeValues(acc, rest[0]).value;
      MergeKeepsRepeats(acc, rest[0]);
      MergeAbsorbsInputs(acc, rest[0]);
      MergeAllKeepsRepeats(m, rest[1..]);
      KeepsRepeatsTransitive(MergeAll(m, rest[1..]).value, m, acc);
      AbsorbsTransitive(MergeAll(m, rest[1..]).value, m, acc);
    }
  }

  /** The merge of a non-empty list of values, first to last. */
  function MergeSeq(vs: seq<Value>): Option<Value>
    requires vs != []
  {
    MergeAll(vs[0], vs[1..])
  }

  /** All values merge together exactly when every two of them are compatible. */
  lemma MergeSeqSucceedsIff(vs: seq<Value>)
    requires vs != []
    ensures MergeSeq(vs).Some? <==> PairwiseCompatible(vs)
  {
    assert vs == [vs[0]] + vs[1..];
    MergeAllSucceedsIff(vs[0], vs[1..]);
  }

  /** Any two orders of the same values succeed or fail alike, and then hold the same content;
    when the values agree on repeats the results differ in the order of list items only. */
  lemma MergeSeqOrder(vs: seq<Value>, ws: seq<Value>)
    requires vs != [] && ws != [] && multiset(vs) == multiset(ws)
    ensures MergeSeq(vs).Some? <==> MergeSeq(ws).Some?
    ensures MergeSeq(vs).Some? ==>
      Absorbs(MergeSeq(vs).value, MergeSeq(ws).value) && Absorbs(MergeSeq(ws).value, MergeSeq(vs).value)
    ensures MergeSeq(vs).Some? && PairwiseRepeatsAgree(vs) ==> Rearranged(MergeSeq(vs).value, MergeSeq(ws).value)
  {
    assert vs == [vs[0]] + vs[1..] && ws == [ws[0]] + ws[1..];
    assert forall v :: v in vs <==> v in multiset(vs);
    assert forall v :: v in ws <==> v in multiset(ws);
    MergeSeqSucceedsIff(vs);
    MergeSeqSucceedsIff(ws);
    if MergeSeq(vs).Some? {
      var (m, n) := (MergeSeq(vs).value, MergeSeq(ws).value);
      MergeAllIsLeastUpperBound(vs[0], vs[1..]);
      MergeAllIsLeastUpperBound(ws[0], ws[1..]);
      if PairwiseRepeatsAgree(vs) {
        forall w | w in ws ensures RepeatsAgree(w, m) {
          MergeAllRepeatsAgree(vs[0], vs[1..], w);
          RepeatsAgreeSymmetric(m, w);
        }
        MergeAllRepeatsAgree(ws[0], ws[1..], m);
        RepeatsAgreeSymmetric(n, m);
        MutualAbsorptionAndRepeats(m, n);
      }
    }
  }

  /** `ws` is a reordering of `vs` that merges to a value with another multiset of list items. */
  ghost predicate OrderShows(vs: seq<Value>, ws: seq<Value>) {
    && vs != [] && ws != [] && multiset(vs) == multiset(ws)
    && MergeSeq(vs).Some? && MergeSeq(ws).Some?
    && !Rearranged(MergeSeq(vs).value, MergeSeq(ws).value)
  }

  /** The exact condition under which the order of the values shows in nothing but the order of
    list items. */
  lemma OrderNeverShowsIff(vs: seq<Value>)
    requires vs != [] && MergeSeq(vs).Some?
    ensures (forall ws :: !OrderShows(vs, ws)) <==> PairwiseRepeatsAgree(vs)
  {
    if PairwiseRepeatsAgree(vs) {
      forall ws ensures !OrderShows(vs, ws) {
        if OrderShows(vs, ws) {
          MergeSeqOrder(vs, ws);
        }
      }
    }
    if forall ws :: !OrderShows(vs, ws) {
      forall u, v | u in vs && v in vs ensures RepeatsAgree(u, v) {
        if u == v {
          RepeatsAgreeReflexive(u);
        } else {
          OrderOfTwoShows(vs, u, v);
        }
      }
    }
  }

  lemma OrderOfTwoShows(vs: seq<Value>, u: Value, v: Value)
    requires vs != [] && MergeSeq(vs).Some? && u in vs && v in vs && u != v
    requires forall ws :: !OrderShows(vs, ws)
    ensures RepeatsAgree(u, v)
  {
    var _, others := Without(vs, u);
    assert v in multiset(vs) && v in multiset(others);
    var _, rest := Without(others, v);
    var (p, q) := ([u] + ([v] + rest), [v] + ([u] + rest));
    SameOrderedPair(vs, p, q);
    var (m, n) := (MergeSeq(p).value, MergeSeq(q).value);
    MergeSucceedsIff(u, v);
    MergeSeqStartsWithTwo(u, v, rest);
    MergeSeqStartsWithTwo(v, u, rest);
    MergeCommutesIff(u, v);
    var (uv, vu) := (MergeValues(u, v).value, MergeValues(v, u).value);
    MergeAllKeepsRepeats(uv, rest);
    MergeAllKeepsRepeats(vu, rest);
    MergeIsLeastUpperBound(u, v);
    MergeIsLeastUpperBound(v, u);
    RearrangedPulledBack(uv, vu, m, n);
  }

  lemma SameOrderedPair(vs: seq<Value>, p: seq<Value>, q: seq<Value>)
    requires vs != [] && MergeSeq(vs).Some? && p != [] && q != []
    requires multiset(p) == multiset(vs) == multiset(q)
    requires forall ws :: !OrderShows(vs, ws)
    ensures MergeSeq(p).Some? && MergeSeq(q).Some? && Rearranged(MergeSeq(p).value, MergeSeq(q).value)
  {
    MergeSeqOrder(vs, p);
    MergeSeqOrder(vs, q);
    assert !OrderShows(vs, p) && !OrderShows(vs, q);
    RearrangedSymmetric(MergeSeq(vs).value, MergeSeq(p).value);
    RearrangedTransitive(MergeSeq(p).value, MergeSeq(vs).value, MergeSeq(q).value);
  }

  lemma MergeSeqStartsWithTwo(u: Value, v: Value, rest: seq<Value>)
    requires MergeSeq([u] + ([v] + rest)).Some?
    ensures MergeValues(u, v).Some? && MergeSeq([u] + ([v] + rest)) == MergeAll(MergeValues(u, v).value, rest)
    ensures Compatible(u, v)
  {
    assert ([u] + ([v] + rest))[1..] == [v] + rest;
    assert ([v] + rest)[1..] == rest;
    MergeSucceedsIff(u, v);
  }

  /** The list without one occurrence of one of its items. */
  lemma Without<T>(vs: seq<T>, u: T) returns (k: nat, rest: seq<T>)
    requires u in vs
    ensures k < |vs| && vs[k] == u && rest == vs[..k] + vs[k + 1..]
    ensures multiset(vs) == multiset(rest) + multiset{u}
  {
    k :| 0 <= k < |vs| && vs[k] == u;
    rest := vs[..k] + vs[k + 1..];
    assert vs == vs[..k] + [u] + vs[k + 1..];
  }
}
