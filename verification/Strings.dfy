/** Python's text helpers: blanks, stripping, and the sorting of distinct items. */
module Strings {
  /** The characters that `\s` matches and `strip` removes. */
  predicate IsSpace(c: char) {
    || c == ' ' || '\t' <= c <= '\r' || '\U{1c}' <= c <= '\U{1f}' || c == '\U{85}' || c == '\U{a0}' || c == '\U{1680}'
    || '\U{2000}' <= c <= '\U{200a}' || c == '\U{2028}' || c == '\U{2029}' || c == '\U{202f}' || c == '\U{205f}'
      || c == '\U{3000}'
  }

  /** By code point, the white space of Unicode together with the four information separators. */
  lemma SpaceCodes(c: char)
    ensures IsSpace(c) <==>
      var code := c as int;
      || 9 <= code <= 13 || 28 <= code <= 32 || code in {133, 160, 5760} || 8192 <= code <= 8202
      || code in {8232, 8233, 8239, 8287, 12288}
  {
  }

  predicate Blank(s: string) {
    forall i :: 0 <= i < |s| ==> IsSpace(s[i])
  }

  function StripLeft(s: string): string {
    if s != "" && IsSpace(s[0]) then StripLeft(s[1..]) else s
  }

  function StripRight(s: string): string {
    if s != "" && IsSpace(s[|s| - 1]) then StripRight(s[..|s| - 1]) else s
  }

  /** `strip` */
  function Strip(s: string): string {
    StripRight(StripLeft(s))
  }

  /** No blanks at either end. */
  predicate Stripped(s: string) {
    s == "" || (!IsSpace(s[0]) && !IsSpace(s[|s| - 1]))
  }

  lemma {:induction false} StripShortens(s: string)
    ensures |StripLeft(s)| <= |s| && (|StripLeft(s)| == |s| <==> s == "" || !IsSpace(s[0]))
    ensures |StripRight(s)| <= |s| && (|StripRight(s)| == |s| <==> s == "" || !IsSpace(s[|s| - 1]))
    decreases |s|
  {
    if s != "" {
      StripShortens(s[1..]);
      StripShortens(s[..|s| - 1]);
    }
  }

  lemma StripIff(s: string)
    ensures Strip(s) == s <==> Stripped(s)
  {
    StripShortens(s);
    StripShortens(StripLeft(s));
  }

  lemma {:induction false} StripLeftParts(s: string) returns (a: string)
    ensures Blank(a) && s == a + StripLeft(s) && (StripLeft(s) != "" ==> !IsSpace(StripLeft(s)[0]))
  {
    if s != "" && IsSpace(s[0]) {
      var b := StripLeftParts(s[1..]);
      a := [s[0]] + b;
    } else {
      a := "";
    }
  }

  lemma {:induction false} StripRightParts(s: string) returns (b: string)
    ensures Blank(b) && s == StripRight(s) + b
    ensures StripRight(s) != "" ==> !IsSpace(StripRight(s)[|StripRight(s)| - 1]) && StripRight(s)[0] == s[0]
  {
    if s != "" && IsSpace(s[|s| - 1]) {
      var c := StripRightParts(s[..|s| - 1]);
      b := c + [s[|s| - 1]];
    } else {
      b := "";
    }
  }

  /** Stripping takes blanks away at both ends, and leaves none there. */
  lemma StripParts(s: string) returns (a: string, b: string)
    ensures s == a + Strip(s) + b && Blank(a) && Blank(b)
    ensures Strip(s) != "" ==> !IsSpace(Strip(s)[0]) && !IsSpace(Strip(s)[|Strip(s)| - 1])
  {
    a := StripLeftParts(s);
    b := StripRightParts(StripLeft(s));
    assert a + (Strip(s) + b) == a + Strip(s) + b;
  }

  /** `set(s)` */
  function Distinct(s: seq<string>): set<string> {
    set x | x in s
  }

  // ----- Sorting -------------------------------------------------------------------------------

  type Less<!T> = (T, T) -> bool

  ghost predicate StrictTotal<T(!new)>(less: Less<T>) {
    && (forall a :: !less(a, a))
    && (forall a, b :: a != b ==> less(a, b) || less(b, a))
    && (forall a, b, c :: less(a, b) && less(b, c) ==> less(a, c))
  }

  predicate Ascending<T>(s: seq<T>, less: Less<T>) {
    forall i, j :: 0 <= i < j < |s| ==> less(s[i], s[j])
  }

  function Insert<T(==)>(x: T, s: seq<T>, less: Less<T>): seq<T> {
    if s == [] || less(x, s[0]) then [x] + s
    else if x == s[0] then s
    else [s[0]] + Insert(x, s[1..], less)
  }

  /** `sorted(set(s))` */
  function SortedSet<T(==)>(s: seq<T>, less: Less<T>): seq<T> {
    if s == [] then [] else Insert(s[0], SortedSet(s[1..], less), less)
  }

  lemma {:induction false} InsertSorts<T(!new)>(x: T, s: seq<T>, less: Less<T>)
    requires StrictTotal(less) && Ascending(s, less)
    ensures Ascending(Insert(x, s, less), less) && forall y :: y in Insert(x, s, less) <==> y == x || y in s
    decreases |s|
  {
    if s != [] {
      assert s == [s[0]] + s[1..];
      if !less(x, s[0]) && x != s[0] {
        InsertSorts(x, s[1..], less);
        var r := Insert(x, s[1..], less);
        forall k | 0 <= k < |r| ensures less(s[0], r[k]) {
          assert r[k] in r;
        }
      }
    }
  }

  lemma {:induction false} SortedSetSorts<T(!new)>(s: seq<T>, less: Less<T>)
    requires StrictTotal(less)
    ensures Ascending(SortedSet(s, less), less) && forall x :: x in SortedSet(s, less) <==> x in s
    decreases |s|
  {
    if s != [] {
      SortedSetSorts(s[1..], less);
      InsertSorts(s[0], SortedSet(s[1..], less), less);
      assert s == [s[0]] + s[1..];
    }
  }

  /** Two ascending lists with the same items are the same list. */
  lemma {:induction false} AscendingUnique<T(!new)>(s: seq<T>, t: seq<T>, less: Less<T>)
    requires StrictTotal(less) && Ascending(s, less) && Ascending(t, less)
    requires forall x :: x in s <==> x in t
    ensures s == t
    decreases |s|
  {
    assert t != [] ==> t[0] in t;
    if s != [] {
      assert s[0] in t && t != [] && t[0] in s;
      var i :| 0 <= i < |t| && t[i] == s[0];
      var j :| 0 <= j < |s| && s[j] == t[0];
      assert s[0] == t[0];
      forall x ensures x in s[1..] <==> x in t[1..] {
        assert s == [s[0]] + s[1..] && t == [t[0]] + t[1..];
        assert x in s <==> x in t;
      }
      AscendingUnique(s[1..], t[1..], less);
    }
  }

  ghost predicate NoRepeats<T>(s: seq<T>) {
    forall i, j :: 0 <= i < j < |s| ==> s[i] != s[j]
  }

  /** Sorting drops nothing but repeats. */
  lemma {:induction false} SortedSetLength<T(!new)>(s: seq<T>, less: Less<T>)
    requires StrictTotal(less)
    ensures |SortedSet(s, less)| <= |s| && (|SortedSet(s, less)| == |s| <==> NoRepeats(s))
    decreases |s|
  {
    if s != [] {
      var rest := SortedSet(s[1..], less);
      SortedSetLength(s[1..], less);
      SortedSetSorts(s[1..], less);
      InsertLength(s[0], rest, less);
      assert s == [s[0]] + s[1..];
      if NoRepeats(s[1..]) && s[0] !in s[1..] {
        assert NoRepeats(s);
      }
      if NoRepeats(s) {
        assert forall i :: 0 <= i < |s[1..]| ==> s[1..][i] == s[i + 1];
      }
    }
  }

  lemma {:induction false} InsertLength<T(!new)>(x: T, s: seq<T>, less: Less<T>)
    requires StrictTotal(less) && Ascending(s, less)
    ensures |Insert(x, s, less)| == if x in s then |s| else |s| + 1
    decreases |s|
  {
    if s != [] {
      assert s == [s[0]] + s[1..];
      if less(x, s[0]) {
        assert forall k :: 0 < k < |s| ==> less(s[0], s[k]);
      } else if x != s[0] {
        InsertLength(x, s[1..], less);
      }
    }
  }

  lemma {:induction false} DistinctSize(s: seq<string>)
    requires NoRepeats(s)
    ensures |Distinct(s)| == |s|
  {
    if s != [] {
      DistinctSize(s[1..]);
      assert s == [s[0]] + s[1..];
      assert Distinct(s) == {s[0]} + Distinct(s[1..]);
    }
  }

  /** Alphabetical order by character code. */
  predicate Before(a: string, b: string) {
    b != "" && (a == "" || a[0] < b[0] || (a[0] == b[0] && Before(a[1..], b[1..])))
  }

  /** The texts agree up to k, where the first ends or has the smaller character. */
  predicate DiffersAt(a: string, b: string, k: nat) {
    k <= |a| && k < |b| && (forall i :: 0 <= i < k ==> a[i] == b[i]) && (k < |a| ==> a[k] < b[k])
  }

  lemma {:induction false} BeforeIff(a: string, b: string)
    ensures Before(a, b) <==> exists k: nat :: DiffersAt(a, b, k)
    decreases |a|
  {
    if a == "" || b == "" || a[0] != b[0] {
      assert Before(a, b) ==> DiffersAt(a, b, 0);
    } else {
      BeforeIff(a[1..], b[1..]);
      if k: nat :| DiffersAt(a[1..], b[1..], k) {
        assert forall i :: 0 < i < k + 1 ==> a[i] == a[1..][i - 1] && b[i] == b[1..][i - 1];
        assert DiffersAt(a, b, k + 1);
      }
      if k: nat :| DiffersAt(a, b, k) {
        assert DiffersAt(a[1..], b[1..], k - 1);
      }
    }
  }

  lemma {:induction false} BeforeTotal(a: string, b: string)
    ensures a == b ==> !Before(a, b)
    ensures a != b ==> Before(a, b) || Before(b, a)
    decreases |a|
  {
    if a != "" && b != "" && a[0] == b[0] {
      BeforeTotal(a[1..], b[1..]);
      assert a == [a[0]] + a[1..] && b == [b[0]] + b[1..];
    }
  }

  lemma {:induction false} BeforeTransitive(a: string, b: string, c: string)
    requires Before(a, b) && Before(b, c)
    ensures Before(a, c)
    decreases |a|
  {
    if a != "" && a[0] == b[0] == c[0] {
      BeforeTransitive(a[1..], b[1..], c[1..]);
    }
  }

  lemma BeforeIsStrictTotal()
    ensures StrictTotal(Before)
  {
    forall a, b ensures !Before(a, a) && (a != b ==> Before(a, b) || Before(b, a)) {
      BeforeTotal(a, b);
      BeforeTotal(a, a);
    }
    forall a, b, c | Before(a, b) && Before(b, c) ensures Before(a, c) {
      BeforeTransitive(a, b, c);
    }
  }
}
