/** The restricted `{{ field }}` templates of credentials (app/custom_credentials.py,
  app/credential_extra_vars.py). */
module Templates {
  import opened Options
  import opened Strings
  import opened Values

  // ----- Scanning ------------------------------------------------------------------------------

  predicate IsNameStart(c: char) { 'A' <= c <= 'Z' || 'a' <= c <= 'z' || c == '_' }

  predicate IsNameChar(c: char) { IsNameStart(c) || '0' <= c <= '9' }

  predicate IsName(s: string) {
    s != "" && IsNameStart(s[0]) && forall i :: 0 <= i < |s| ==> IsNameChar(s[i])
  }

  function SkipSpaces(s: string, i: nat): (end: nat)
    ensures i <= end && (i <= |s| ==> end <= |s|)
    decreases |s| - i
  {
    if i < |s| && IsSpace(s[i]) then SkipSpaces(s, i + 1) else i
  }

  function NameEnd(s: string, i: nat): (end: nat)
    ensures i <= end && (i <= |s| ==> end <= |s|)
    decreases |s| - i
  {
    if i < |s| && IsNameChar(s[i]) then NameEnd(s, i + 1) else i
  }

  predicate TwoAt(s: string, i: nat, c: char) { i + 2 <= |s| && s[i] == c && s[i + 1] == c }

  /** The placeholder expression matched at position i: where it ends, and the name. */
  function MatchAt(s: string, i: nat, accepts: string -> bool): (r: Option<(nat, string)>)
    ensures r.Some? ==> i < r.value.0 <= |s|
  {
    if !TwoAt(s, i, '{') then None
    else
      var a := SkipSpaces(s, i + 2);
      var b := NameEnd(s, a);
      var c := SkipSpaces(s, b);
      if TwoAt(s, c, '}') && a < b && IsNameStart(s[a]) && accepts(s[a..b]) then Some((c + 2, s[a..b])) else None
  }

  /** The same, declaratively: two braces, spaces, an accepted name, spaces, two braces. */
  ghost predicate Placeholder(s: string, i: nat, j: nat, name: string, accepts: string -> bool) {
    accepts(name) && exists a: nat, b: nat, c: nat :: j == c + 2 && Parts(s, i, a, b, c) && name == s[a..b]
  }

  ghost predicate Parts(s: string, i: nat, a: nat, b: nat, c: nat) {
    && TwoAt(s, i, '{') && i + 2 <= a < b <= c && TwoAt(s, c, '}')
    && (forall k :: i + 2 <= k < a ==> IsSpace(s[k])) && (forall k :: b <= k < c ==> IsSpace(s[k]))
    && IsNameStart(s[a]) && (forall k :: a <= k < b ==> IsNameChar(s[k]))
  }

  lemma {:induction false} SkipSpacesIff(s: string, i: nat, end: nat)
    requires i <= end < |s| && !IsSpace(s[end])
    ensures SkipSpaces(s, i) == end <==> forall k :: i <= k < end ==> IsSpace(s[k])
    decreases |s| - i
  {
    if i < end && IsSpace(s[i]) {
      SkipSpacesIff(s, i + 1, end);
    }
  }

  lemma {:induction false} NameEndIff(s: string, i: nat, end: nat)
    requires i <= end < |s| && !IsNameChar(s[end])
    ensures NameEnd(s, i) == end <==> forall k :: i <= k < end ==> IsNameChar(s[k])
    decreases |s| - i
  {
    if i < end && IsNameChar(s[i]) {
      NameEndIff(s, i + 1, end);
    }
  }

  lemma {:induction false} StopsAt(s: string, i: nat)
    ensures SkipSpaces(s, i) < |s| ==> !IsSpace(s[SkipSpaces(s, i)])
    ensures NameEnd(s, i) < |s| ==> !IsNameChar(s[NameEnd(s, i)])
    decreases |s| - i
  {
    if i < |s| {
      StopsAt(s, i + 1);
    }
  }

  /** The scanner finds a placeholder exactly when one starts at i, and then the only one. */
  lemma MatchIsPlaceholder(s: string, i: nat, accepts: string -> bool, j: nat, name: string)
    ensures MatchAt(s, i, accepts) == Some((j, name)) <==> Placeholder(s, i, j, name, accepts)
  {
    if MatchAt(s, i, accepts) == Some((j, name)) {
      MatchIsSound(s, i, accepts, j, name);
    }
    if Placeholder(s, i, j, name, accepts) {
      MatchIsComplete(s, i, accepts, j, name);
    }
  }

  lemma MatchIsSound(s: string, i: nat, accepts: string -> bool, j: nat, name: string)
    requires MatchAt(s, i, accepts) == Some((j, name))
    ensures Placeholder(s, i, j, name, accepts)
  {
    var a := SkipSpaces(s, i + 2);
    var b := NameEnd(s, a);
    var c := SkipSpaces(s, b);
    StopsAt(s, i + 2);
    StopsAt(s, a);
    StopsAt(s, b);
    SkipSpacesIff(s, i + 2, a);
    NameEndIff(s, a, b);
    SkipSpacesIff(s, b, c);
    assert Parts(s, i, a, b, c);
  }

  lemma MatchIsComplete(s: string, i: nat, accepts: string -> bool, j: nat, name: string)
    requires Placeholder(s, i, j, name, accepts)
    ensures MatchAt(s, i, accepts) == Some((j, name))
  {
    var a: nat, b: nat, c: nat :| j == c + 2 && Parts(s, i, a, b, c) && name == s[a..b];
    PartsAreFound(s, i, a, b, c);
  }

  lemma PartsAreFound(s: string, i: nat, a: nat, b: nat, c: nat)
    requires Parts(s, i, a, b, c)
    ensures SkipSpaces(s, i + 2) == a && NameEnd(s, a) == b && SkipSpaces(s, b) == c
  {
    SkipSpacesIff(s, i + 2, a);
    NameEndIff(s, a, b);
    SkipSpacesIff(s, b, c);
  }

  // ----- Substitution --------------------------------------------------------------------------

  datatype Token = Char(c: char) | Field(name: string)

  /** The text from i on, cut at the leftmost non-overlapping placeholders. */
  function Tokens(s: string, i: nat, accepts: string -> bool): seq<Token>
    decreases |s| - i
  {
    if i >= |s| then []
    else match MatchAt(s, i, accepts)
      case None => [Char(s[i])] + Tokens(s, i + 1, accepts)
      case Some(m) => [Field(m.1)] + Tokens(s, m.0, accepts)
  }

  function Substituted(tokens: seq<Token>, values: string -> string): string {
    if tokens == [] then ""
    else (match tokens[0] case Char(c) => [c] case Field(name) => values(name)) + Substituted(tokens[1..], values)
  }

  /** The names that `findall` collects. */
  function Fields(tokens: seq<Token>): set<string> {
    set t | t in tokens && t.Field? :: t.name
  }

  predicate IsSpecial(c: char) { c == '{' || c == '}' || c == '%' || c == '#' }

  /** `{{`, `}}`, `{%`, `%}`, `{#` and `#}` */
  predicate IsDelimiter(c: char, d: char) {
    (c == '{' && (d == '{' || d == '%' || d == '#')) || (d == '}' && (c == '}' || c == '%' || c == '#'))
  }

  predicate HasDelimiter(s: string) {
    exists i :: 0 <= i < |s| - 1 && IsDelimiter(s[i], s[i + 1])
  }

  /** A value that no template can turn into a delimiter: none inside, and no half of one at an end. */
  predicate SafeValue(v: string) {
    !HasDelimiter(v) && (v != "" ==> !IsSpecial(v[0]) && !IsSpecial(v[|v| - 1]))
  }

  function Nothing(name: string): string { "" }

  /** The check of one string: known fields only, and no template syntax around them. */
  predicate ValidText(s: string, accepts: string -> bool, fields: set<string>) {
    var tokens := Tokens(s, 0, accepts);
    Fields(tokens) <= fields && !HasDelimiter(Substituted(tokens, Nothing))
  }

  function Lookup(values: map<string, string>): string -> string {
    name => if name in values then values[name] else ""
  }

  function RenderedText(s: string, accepts: string -> bool, values: map<string, string>): Option<string> {
    var tokens := Tokens(s, 0, accepts);
    if Fields(tokens) <= values.Keys then Some(Substituted(tokens, Lookup(values)))
    else None
  }

  // ----- Where a text is cut -------------------------------------------------------------------

  /** Plain text, then a placeholder of this name. */
  datatype Piece = Piece(plain: string, placeholder: string, name: string)

  /** The text of the pieces, with plain text at the end. */
  function Written(pieces: seq<Piece>, last: string): string {
    if pieces == [] then last else pieces[0].plain + (pieces[0].placeholder + Written(pieces[1..], last))
  }

  /** The same with values in place of the placeholders. */
  function Filled(pieces: seq<Piece>, last: string, values: string -> string): string {
    if pieces == [] then last else pieces[0].plain + (values(pieces[0].name) + Filled(pieces[1..], last, values))
  }

  function PieceNames(pieces: seq<Piece>): set<string> {
    set k | 0 <= k < |pieces| :: pieces[k].name
  }

  ghost predicate NoneStarts(s: string, i: nat, end: nat, accepts: string -> bool) {
    forall k, j, name :: i <= k < end ==> !Placeholder(s, k, j, name, accepts)
  }

  /** At i stand the plain text and the placeholder of the piece; none starts before that one. */
  ghost predicate PieceAt(s: string, i: nat, p: Piece, accepts: string -> bool) {
    var a := i + |p.plain|;
    var b := a + |p.placeholder|;
    && b <= |s| && s[i..a] == p.plain && s[a..b] == p.placeholder
    && NoneStarts(s, i, a, accepts) && Placeholder(s, a, b, p.name, accepts)
  }

  /** From i on the text consists of these pieces: every placeholder is the next one from left to
    right, and none starts in the plain text between. */
  ghost predicate IsCut(s: string, i: nat, pieces: seq<Piece>, last: string, accepts: string -> bool)
    decreases |pieces|
  {
    if pieces == [] then i <= |s| && s[i..] == last && NoneStarts(s, i, |s|, accepts)
    else
      && PieceAt(s, i, pieces[0], accepts)
      && IsCut(s, i + |pieces[0].plain| + |pieces[0].placeholder|, pieces[1..], last, accepts)
  }

  /** The tokens of the pieces. */
  function TokensOf(pieces: seq<Piece>, last: string): seq<Token> {
    if pieces == [] then Chars(last)
    else Chars(pieces[0].plain) + ([Field(pieces[0].name)] + TokensOf(pieces[1..], last))
  }

  ghost predicate NoneMatches(s: string, i: nat, end: nat, accepts: string -> bool) {
    forall k :: i <= k < end ==> MatchAt(s, k, accepts) == None
  }

  lemma NoneStartsNoneMatches(s: string, i: nat, end: nat, accepts: string -> bool)
    requires NoneStarts(s, i, end, accepts)
    ensures NoneMatches(s, i, end, accepts)
  {
    forall k | i <= k < end ensures MatchAt(s, k, accepts) == None {
      var m := MatchAt(s, k, accepts);
      if m.Some? {
        MatchIsPlaceholder(s, k, accepts, m.value.0, m.value.1);
      }
    }
  }

  lemma CharToken(s: string, i: nat, accepts: string -> bool, rest: seq<Token>)
    requires i < |s| && MatchAt(s, i, accepts) == None && Tokens(s, i + 1, accepts) == rest
    ensures Tokens(s, i, accepts) == [Char(s[i])] + rest
  {
  }

  lemma {:induction false} PlainTokens(s: string, i: nat, end: nat, accepts: string -> bool, rest: seq<Token>)
    requires i <= end <= |s| && NoneMatches(s, i, end, accepts) && Tokens(s, end, accepts) == rest
    ensures Tokens(s, i, accepts) == Chars(s[i..end]) + rest
    decreases end - i
  {
    if i < end {
      PlainTokens(s, i + 1, end, accepts, rest);
      CharToken(s, i, accepts, Chars(s[i + 1..end]) + rest);
      CharsFrom(s, i, end, rest);
    } else {
      assert Chars(s[i..end]) + rest == rest;
    }
  }

  lemma CharsFrom(s: string, i: nat, end: nat, rest: seq<Token>)
    requires i < end <= |s|
    ensures Chars(s[i..end]) + rest == [Char(s[i])] + (Chars(s[i + 1..end]) + rest)
  {
    assert Chars(s[i..end]) == [Char(s[i])] + Chars(s[i + 1..end]);
  }

  lemma PieceTokens(s: string, i: nat, p: Piece, end: nat, rest: seq<Token>, accepts: string -> bool)
    requires PieceAt(s, i, p, accepts) && end == i + |p.plain| + |p.placeholder| && Tokens(s, end, accepts) == rest
    ensures Tokens(s, i, accepts) == Chars(p.plain) + ([Field(p.name)] + rest)
  {
    var a := i + |p.plain|;
    FieldToken(s, a, end, p.name, accepts);
    NoneStartsNoneMatches(s, i, a, accepts);
    PlainTokens(s, i, a, accepts, [Field(p.name)] + rest);
  }

  lemma FieldToken(s: string, i: nat, end: nat, name: string, accepts: string -> bool)
    requires Placeholder(s, i, end, name, accepts)
    ensures Tokens(s, i, accepts) == [Field(name)] + Tokens(s, end, accepts)
  {
    MatchIsPlaceholder(s, i, accepts, end, name);
  }

  lemma {:induction false} CutTokens(s: string, i: nat, pieces: seq<Piece>, last: string, accepts: string -> bool)
    requires IsCut(s, i, pieces, last, accepts)
    ensures Tokens(s, i, accepts) == TokensOf(pieces, last)
    decreases |pieces|
  {
    if pieces == [] {
      NoneStartsNoneMatches(s, i, |s|, accepts);
      PlainTokens(s, i, |s|, accepts, []);
    } else {
      var end := i + |pieces[0].plain| + |pieces[0].placeholder|;
      CutTokens(s, end, pieces[1..], last, accepts);
      PieceTokens(s, i, pieces[0], end, TokensOf(pieces[1..], last), accepts);
    }
  }

  lemma {:induction false} SubstitutedMore(a: seq<Token>, b: seq<Token>, values: string -> string)
    ensures Substituted(a + b, values) == Substituted(a, values) + Substituted(b, values)
  {
    if a != [] {
      SubstitutedMore(a[1..], b, values);
      assert (a + b)[1..] == a[1..] + b;
    } else {
      assert a + b == b;
    }
  }

  lemma {:induction false} SubstitutedChars(s: string, values: string -> string)
    ensures Substituted(Chars(s), values) == s && Fields(Chars(s)) == {}
  {
    if s != "" {
      SubstitutedChars(s[1..], values);
      assert Chars(s)[1..] == Chars(s[1..]);
    }
  }

  lemma FieldsOfMore(a: seq<Token>, b: seq<Token>)
    ensures Fields(a + b) == Fields(a) + Fields(b)
  {
    assert forall t :: t in a + b <==> t in a || t in b;
  }

  /** All placeholders are filled, whatever there is between. */
  lemma {:induction false} PiecesFilled(pieces: seq<Piece>, last: string, values: string -> string)
    ensures Substituted(TokensOf(pieces, last), values) == Filled(pieces, last, values)
    ensures Fields(TokensOf(pieces, last)) == PieceNames(pieces)
  {
    if pieces == [] {
      SubstitutedChars(last, values);
    } else {
      var (p, rest) := (pieces[0], TokensOf(pieces[1..], last));
      PiecesFilled(pieces[1..], last, values);
      SubstitutedChars(p.plain, values);
      SubstitutedMore(Chars(p.plain), [Field(p.name)] + rest, values);
      assert ([Field(p.name)] + rest)[1..] == rest;
      FieldsOfMore(Chars(p.plain), [Field(p.name)] + rest);
      FieldsOfMore([Field(p.name)], rest);
      NamesOfMore(pieces);
    }
  }

  lemma NamesOfMore(pieces: seq<Piece>)
    requires pieces != []
    ensures PieceNames(pieces) == {pieces[0].name} + PieceNames(pieces[1..])
  {
    forall k | 0 < k < |pieces| ensures pieces[k].name in PieceNames(pieces[1..]) {
      assert pieces[1..][k - 1] == pieces[k];
    }
  }

  lemma CutMore(s: string, i: nat, p: Piece, end: nat, rest: seq<Piece>, last: string, accepts: string -> bool)
    requires PieceAt(s, i, p, accepts) && end == i + |p.plain| + |p.placeholder| && IsCut(s, end, rest, last, accepts)
    ensures IsCut(s, i, [p] + rest, last, accepts)
  {
    var pieces := [p] + rest;
    assert pieces[0] == p && pieces[1..] == rest;
  }

  /** Every text is cut in one way or another. */
  lemma {:induction false} CutExists(s: string, i: nat, accepts: string -> bool)
    returns (pieces: seq<Piece>, last: string)
    requires i <= |s|
    ensures IsCut(s, i, pieces, last, accepts)
    decreases |s| - i
  {
    if k: nat, j: nat, name :| i <= k < |s| && Placeholder(s, k, j, name, accepts) && NoneStarts(s, i, k, accepts) {
      MatchIsPlaceholder(s, k, accepts, j, name);
      var (p, rest) := (Piece(s[i..k], s[k..j], name), []);
      assert PieceAt(s, i, p, accepts);
      rest, last := CutExists(s, j, accepts);
      CutMore(s, i, p, j, rest, last, accepts);
      pieces := [p] + rest;
    } else {
      pieces, last := [], s[i..];
      NoFirstMeansNone(s, i, |s|, accepts);
    }
  }

  lemma {:induction false} NoFirstMeansNone(s: string, i: nat, end: nat, accepts: string -> bool)
    requires i <= end
    requires forall k, j, name :: i <= k < end && Placeholder(s, k, j, name, accepts) ==> !NoneStarts(s, i, k, accepts)
    ensures NoneStarts(s, i, end, accepts)
    decreases end - i
  {
    if i < end {
      NoFirstMeansNone(s, i, end - 1, accepts);
    }
  }

  /** The rendering of any text, piece by piece, and its validity. */
  lemma CutTextRenders(s: string, pieces: seq<Piece>, last: string, accepts: string -> bool,
                       values: map<string, string>, fields: set<string>)
    requires IsCut(s, 0, pieces, last, accepts)
    ensures RenderedText(s, accepts, values)
         == if PieceNames(pieces) <= values.Keys then Some(Filled(pieces, last, Lookup(values))) else None
    ensures ValidText(s, accepts, fields) <==>
      PieceNames(pieces) <= fields && !HasDelimiter(Filled(pieces, last, Nothing))
  {
    CutTokens(s, 0, pieces, last, accepts);
    PiecesFilled(pieces, last, Lookup(values));
    PiecesFilled(pieces, last, Nothing);
  }

  /** A placeholder as text: braces, blanks, the name, blanks, braces. */
  ghost predicate IsHole(text: string, name: string) {
    IsName(name) && exists a, b :: Blank(a) && Blank(b) && text == "{{" + a + name + b + "}}"
  }

  ghost predicate PlainPieces(pieces: seq<Piece>, last: string, accepts: string -> bool) {
    '{' !in last && forall k :: 0 <= k < |pieces| ==> PlainPiece(pieces[k], accepts)
  }

  ghost predicate PlainPiece(p: Piece, accepts: string -> bool) {
    '{' !in p.plain && accepts(p.name) && IsHole(p.placeholder, p.name)
  }

  /** The text s continues with t from position n on. */
  ghost predicate Continues(s: string, n: nat, t: string) {
    |s| == n + |t| && forall k :: n <= k < |s| ==> s[k] == t[k - n]
  }

  lemma PartsShift(s: string, n: nat, t: string, i: nat, a: nat, b: nat, c: nat)
    requires Continues(s, n, t)
    ensures Parts(t, i, a, b, c) <==> Parts(s, n + i, n + a, n + b, n + c)
    ensures Parts(t, i, a, b, c) ==> s[n + a..n + b] == t[a..b]
  {
    assert forall k :: 0 <= k < |t| ==> t[k] == s[n + k];
  }

  lemma PlaceholderMoves(s: string, n: nat, t: string, i: nat, j: nat, name: string, accepts: string -> bool)
    requires Continues(s, n, t) && Placeholder(t, i, j, name, accepts)
    ensures Placeholder(s, n + i, n + j, name, accepts)
  {
    var a: nat, b: nat, c: nat :| j == c + 2 && Parts(t, i, a, b, c) && name == t[a..b];
    PartsShift(s, n, t, i, a, b, c);
  }

  lemma PlaceholderMovesBack(s: string, n: nat, t: string, i: nat, j: nat, name: string, accepts: string -> bool)
    requires Continues(s, n, t) && Placeholder(s, n + i, n + j, name, accepts)
    ensures Placeholder(t, i, j, name, accepts)
  {
    var a: nat, b: nat, c: nat :| n + j == c + 2 && Parts(s, n + i, a, b, c) && name == s[a..b];
    PartsShift(s, n, t, i, a - n, b - n, c - n);
  }

  lemma OneMatchShifts(s: string, n: nat, t: string, i: nat, j: nat, name: string, accepts: string -> bool)
    requires Continues(s, n, t)
    ensures MatchAt(t, i, accepts) == Some((j, name)) <==> MatchAt(s, n + i, accepts) == Some((n + j, name))
  {
    MatchIsPlaceholder(t, i, accepts, j, name);
    MatchIsPlaceholder(s, n + i, accepts, n + j, name);
    if Placeholder(t, i, j, name, accepts) {
      PlaceholderMoves(s, n, t, i, j, name, accepts);
    } else if Placeholder(s, n + i, n + j, name, accepts) {
      PlaceholderMovesBack(s, n, t, i, j, name, accepts);
    }
  }

  /** What precedes a position does not matter there. */
  lemma MatchShifts(s: string, n: nat, t: string, i: nat, accepts: string -> bool)
    requires Continues(s, n, t)
    ensures MatchAt(s, n + i, accepts) == Shifted(MatchAt(t, i, accepts), n)
  {
    var (m, m') := (MatchAt(t, i, accepts), MatchAt(s, n + i, accepts));
    if m.Some? {
      OneMatchShifts(s, n, t, i, m.value.0, m.value.1, accepts);
    } else if m'.Some? {
      OneMatchShifts(s, n, t, i, m'.value.0 - n, m'.value.1, accepts);
    }
  }

  function Shifted(m: Option<(nat, string)>, n: nat): Option<(nat, string)> {
    match m case None => None case Some((end, name)) => Some((n + end, name))
  }

  type Matcher = nat -> Option<(nat, string)>

  type Tokenizer = nat -> seq<Token>

  /** One step of cutting a text, by what matches at the position. */
  ghost predicate Unfolds(s: string, matcher: Matcher, tokens: Tokenizer, i: nat) {
    tokens(i) ==
      if i >= |s| then []
      else match matcher(i)
        case None => [Char(s[i])] + tokens(i + 1)
        case Some(m) => [Field(m.1)] + tokens(m.0)
  }

  ghost predicate Shifts(before: Matcher, n: nat, after: Matcher, i: nat) {
    && after(n + i) == Shifted(before(i), n)
    && (before(i).Some? ==> i < before(i).value.0)
  }

  lemma {:induction false} TokenizersShift(s: string, n: nat, t: string, after: Matcher, before: Matcher,
                                           tokens: Tokenizer, tokens': Tokenizer, i: nat)
    requires Continues(s, n, t) && forall k :: Shifts(before, n, after, k)
    requires forall k :: Unfolds(t, before, tokens, k)
    requires forall k :: Unfolds(s, after, tokens', k)
    ensures tokens'(n + i) == tokens(i)
    decreases |t| - i
  {
    assert Unfolds(t, before, tokens, i) && Unfolds(s, after, tokens', n + i) && Shifts(before, n, after, i);
    if i < |t| {
      TokenizersShift(s, n, t, after, before, tokens, tokens', i + 1);
      if before(i).Some? {
        TokenizersShift(s, n, t, after, before, tokens, tokens', before(i).value.0);
      }
    }
  }

  function MatcherOf(s: string, accepts: string -> bool): Matcher {
    (i: nat) => MatchAt(s, i, accepts)
  }

  function TokenizerOf(s: string, accepts: string -> bool): Tokenizer {
    (i: nat) => Tokens(s, i, accepts)
  }

  lemma TokensUnfold(s: string, accepts: string -> bool, i: nat)
    ensures Unfolds(s, MatcherOf(s, accepts), TokenizerOf(s, accepts), i)
  {
  }

  lemma TokensShift(s: string, n: nat, t: string, accepts: string -> bool)
    requires Continues(s, n, t)
    ensures Tokens(s, n, accepts) == Tokens(t, 0, accepts)
  {
    var (before, after) := (MatcherOf(t, accepts), MatcherOf(s, accepts));
    var (tokens, tokens') := (TokenizerOf(t, accepts), TokenizerOf(s, accepts));
    forall k ensures Shifts(before, n, after, k) {
      MatchShifts(s, n, t, k, accepts);
    }
    forall k ensures Unfolds(t, before, tokens, k) {
      TokensUnfold(t, accepts, k);
    }
    forall k ensures Unfolds(s, after, tokens', k) {
      TokensUnfold(s, accepts, k);
    }
    TokenizersShift(s, n, t, after, before, tokens, tokens', 0);
    assert tokens(0) == Tokens(t, 0, accepts) && tokens'(n) == Tokens(s, n, accepts);
  }

  lemma PlainCharToken(c: char, rest: string, accepts: string -> bool, tokens: seq<Token>)
    requires c != '{' && Tokens(rest, 0, accepts) == tokens
    ensures Tokens([c] + rest, 0, accepts) == [Char(c)] + tokens
  {
    TokensShift([c] + rest, 1, rest, accepts);
  }

  lemma {:induction false} PlainTextTokens(plain: string, rest: string, accepts: string -> bool, tokens: seq<Token>)
    requires '{' !in plain && Tokens(rest, 0, accepts) == tokens
    ensures Tokens(plain + rest, 0, accepts) == Chars(plain) + tokens
  {
    if plain == "" {
      assert plain + rest == rest && Chars(plain) + tokens == tokens;
    } else {
      PlainTextTokens(plain[1..], rest, accepts, tokens);
      PlainCharToken(plain[0], plain[1..] + rest, accepts, Chars(plain[1..]) + tokens);
      FirstChar(plain, rest, tokens);
    }
  }

  lemma FirstChar(plain: string, rest: string, tokens: seq<Token>)
    requires plain != ""
    ensures plain + rest == [plain[0]] + (plain[1..] + rest)
    ensures Chars(plain) + tokens == [Char(plain[0])] + (Chars(plain[1..]) + tokens)
  {
    assert Chars(plain) == [Char(plain[0])] + Chars(plain[1..]);
  }

  lemma PaddedNameMatches(s: string, x: string, name: string, y: string, rest: string, accepts: string -> bool)
    requires Blank(x) && Blank(y) && IsName(name) && accepts(name) && s == "{{" + x + name + y + "}}" + rest
    ensures MatchAt(s, 0, accepts) == Some((|s| - |rest|, name))
  {
    var (a, b) := (2 + |x|, 2 + |x| + |name|);
    assert forall k :: 2 <= k < a ==> s[k] == x[k - 2];
    assert forall k :: a <= k < b ==> s[k] == name[k - a];
    assert forall k :: b <= k < b + |y| ==> s[k] == y[k - b];
    assert s[a..b] == name;
    PartsAreFound(s, 0, a, b, b + |y|);
  }

  lemma {:induction false} PlainPiecesTokens(pieces: seq<Piece>, last: string, accepts: string -> bool)
    requires PlainPieces(pieces, last, accepts)
    ensures Tokens(Written(pieces, last), 0, accepts) == TokensOf(pieces, last)
  {
    if pieces == [] {
      PlainTextTokens(last, "", accepts, []);
      assert last + "" == last && Chars(last) + [] == Chars(last);
    } else {
      var (p, rest) := (pieces[0], Written(pieces[1..], last));
      assert PlainPiece(p, accepts);
      PlainPiecesTokens(pieces[1..], last, accepts);
      HoleTokens(p, rest, accepts);
      PlainTextTokens(p.plain, p.placeholder + rest, accepts, [Field(p.name)] + TokensOf(pieces[1..], last));
    }
  }

  lemma MatchThenRest(text: string, name: string, rest: string, accepts: string -> bool)
    requires MatchAt(text + rest, 0, accepts) == Some((|text|, name))
    ensures Tokens(text + rest, 0, accepts) == [Field(name)] + Tokens(rest, 0, accepts)
  {
    TokensShift(text + rest, |text|, rest, accepts);
  }

  lemma HoleTokens(p: Piece, rest: string, accepts: string -> bool)
    requires PlainPiece(p, accepts)
    ensures Tokens(p.placeholder + rest, 0, accepts) == [Field(p.name)] + Tokens(rest, 0, accepts)
  {
    var x, y :| Blank(x) && Blank(y) && p.placeholder == "{{" + x + p.name + y + "}}";
    PaddedNameMatches(p.placeholder + rest, x, p.name, y, rest, accepts);
    MatchThenRest(p.placeholder, p.name, rest, accepts);
  }

  /** p0 {{ x1 }} p1 ... {{ xn }} pn renders to p0 v1 p1 ... vn pn. */
  lemma PlaceholdersRender(pieces: seq<Piece>, last: string, accepts: string -> bool, values: map<string, string>,
                           fields: set<string>)
    requires PlainPieces(pieces, last, accepts)
    ensures RenderedText(Written(pieces, last), accepts, values)
         == if PieceNames(pieces) <= values.Keys then Some(Filled(pieces, last, Lookup(values))) else None
    ensures ValidText(Written(pieces, last), accepts, fields) <==>
      PieceNames(pieces) <= fields && !HasDelimiter(Filled(pieces, last, Nothing))
  {
    PlainPiecesTokens(pieces, last, accepts);
    PiecesFilled(pieces, last, Lookup(values));
    PiecesFilled(pieces, last, Nothing);
  }

  lemma TwoPieces(p: Piece, q: Piece, last: string, values: string -> string)
    ensures Written([p, q], last) == p.plain + p.placeholder + q.plain + q.placeholder + last
    ensures Filled([p, q], last, values) == p.plain + values(p.name) + q.plain + values(q.name) + last
  {
    assert [p, q][1..] == [q] && [q][1..] == [];
    assert Written([q], last) == q.plain + (q.placeholder + last);
    assert Written([p, q], last) == p.plain + (p.placeholder + Written([q], last));
    assert Filled([q], last, values) == q.plain + (values(q.name) + last);
    assert Filled([p, q], last, values) == p.plain + (values(p.name) + Filled([q], last, values));
  }

  /** Two placeholders with plain text around them. */
  lemma TwoPlaceholdersRender(a: string, x: string, b: string, y: string, c: string, accepts: string -> bool,
                              values: map<string, string>)
    requires '{' !in a && '{' !in b && '{' !in c && IsName(x) && IsName(y) && accepts(x) && accepts(y)
    requires x in values && y in values
    ensures var s := a + ("{{" + x + "}}") + b + ("{{" + y + "}}") + c;
      && RenderedText(s, accepts, values) == Some(a + values[x] + b + values[y] + c)
      && (ValidText(s, accepts, values.Keys) <==> !HasDelimiter(a + b + c))
  {
    var (p, q) := (Piece(a, "{{" + x + "}}", x), Piece(b, "{{" + y + "}}", y));
    assert Blank("") && p.placeholder == "{{" + "" + x + "" + "}}" && q.placeholder == "{{" + "" + y + "" + "}}";
    assert IsHole(p.placeholder, x) && IsHole(q.placeholder, y);
    PlaceholdersRender([p, q], c, accepts, values, values.Keys);
    TwoPieces(p, q, c, Lookup(values));
    TwoPieces(p, q, c, Nothing);
    assert a + "" + b + "" + c == a + b + c;
    assert PieceNames([p, q]) == {x, y} by {
      assert [p, q][0] == p && [p, q][1] == q;
    }
  }

  /** The template syntax that is refused beside placeholders. */
  lemma DelimitersAre(s: string)
    ensures HasDelimiter(s) <==> exists i :: 0 <= i < |s| && StartsDelimiter(s[i..])
  {
    if i :| 0 <= i < |s| - 1 && IsDelimiter(s[i], s[i + 1]) {
      assert s[i..][0] == s[i] && s[i..][1] == s[i + 1] && s[i..] == [s[i], s[i + 1]] + s[i + 2..];
      assert StartsDelimiter(s[i..]);
    }
    if i :| 0 <= i < |s| && StartsDelimiter(s[i..]) {
      assert s[i..][0] == s[i] && s[i..][1] == s[i + 1];
    }
  }

  predicate StartsDelimiter(s: string) {
    "{{" <= s || "}}" <= s || "{%" <= s || "%}" <= s || "{#" <= s || "#}" <= s
  }

  /** Names are words of the letters A-Z and a-z, digits and underscores that start with no digit. */
  lemma NameCodes(s: string)
    ensures IsName(s) <==>
      && s != "" && !(48 <= s[0] as int <= 57)
      && forall i :: 0 <= i < |s| ==>
           var code := s[i] as int; 48 <= code <= 57 || 65 <= code <= 90 || code == 95 || 97 <= code <= 122
  {
  }

  // ----- What safe values guarantee ------------------------------------------------------------

  /** No delimiter arises: not inside a safe value, not at its edges, and not between two parts
    of the text, which are as adjacent as they were without the placeholders. */
  lemma {:induction false} SubstitutionStaysClean(tokens: seq<Token>, values: string -> string)
    requires !HasDelimiter(Substituted(tokens, Nothing))
    requires forall name :: name in Fields(tokens) ==> SafeValue(values(name))
    ensures var (out, bare) := (Substituted(tokens, values), Substituted(tokens, Nothing));
      !HasDelimiter(out) && (out != "" && IsSpecial(out[0]) ==> bare != "" && bare[0] == out[0])
  {
    if tokens != [] {
      var (rest, bare) := (Substituted(tokens[1..], values), Substituted(tokens[1..], Nothing));
      var head := match tokens[0] case Char(c) => [c] case Field(name) => values(name);
      assert tokens == [tokens[0]] + tokens[1..];
      assert forall name :: name in Fields(tokens[1..]) ==> name in Fields(tokens);
      if tokens[0].Char? {
        DelimiterInTail(tokens[0].c, bare);
        SubstitutionStaysClean(tokens[1..], values);
        DelimiterInTail(tokens[0].c, rest);
      } else {
        assert tokens[0] in tokens && tokens[0].name in Fields(tokens);
        assert Substituted(tokens, Nothing) == bare;
        SubstitutionStaysClean(tokens[1..], values);
        SafeBefore(head, rest);
      }
    }
  }

  lemma DelimiterInTail(c: char, rest: string)
    ensures HasDelimiter([c] + rest) <==> HasDelimiter(rest) || (rest != "" && IsDelimiter(c, rest[0]))
  {
    var whole := [c] + rest;
    if i :| 0 <= i < |rest| - 1 && IsDelimiter(rest[i], rest[i + 1]) {
      assert IsDelimiter(whole[i + 1], whole[i + 1 + 1]);
    }
    if rest != "" && IsDelimiter(c, rest[0]) {
      assert IsDelimiter(whole[0], whole[0 + 1]);
    }
    if i :| 0 <= i < |whole| - 1 && IsDelimiter(whole[i], whole[i + 1]) {
      if i > 0 {
        assert IsDelimiter(rest[i - 1], rest[i - 1 + 1]);
      }
    }
  }

  lemma SafeBefore(head: string, rest: string)
    requires SafeValue(head) && !HasDelimiter(rest)
    ensures !HasDelimiter(head + rest)
  {
    var out := head + rest;
    forall i | 0 <= i < |out| - 1 ensures !IsDelimiter(out[i], out[i + 1]) {
      if i >= |head| {
        assert out[i] == rest[i - |head|] && out[i + 1] == rest[i - |head| + 1];
      } else {
        assert out[i] == head[i] && (i + 1 < |head| ==> out[i + 1] == head[i + 1]);
        assert i + 1 < |head| ==> !IsDelimiter(head[i], head[i + 1]);
      }
    }
  }

  lemma NoMatchWithoutDelimiter(s: string, i: nat, accepts: string -> bool)
    requires !HasDelimiter(s)
    ensures MatchAt(s, i, accepts).None?
  {
    if TwoAt(s, i, '{') {
      assert IsDelimiter(s[i], s[i + 1]);
    }
  }

  /** A text without delimiters has no placeholder: it is its own rendering. */
  lemma {:induction false} CleanTextIsFixed(s: string, i: nat, accepts: string -> bool, values: string -> string)
    requires !HasDelimiter(s) && i <= |s|
    ensures Fields(Tokens(s, i, accepts)) == {} && Substituted(Tokens(s, i, accepts), values) == s[i..]
    decreases |s| - i
  {
    if i < |s| {
      NoMatchWithoutDelimiter(s, i, accepts);
      CleanTextIsFixed(s, i + 1, accepts, values);
      assert s[i..] == [s[i]] + s[i + 1..];
    }
  }

  /** A validated text meets no undefined field; rendered with safe values it has no template
    delimiter, is valid again, and rendering it again changes nothing. */
  lemma ValidTextRenders(s: string, accepts: string -> bool, fields: set<string>, values: map<string, string>)
    requires ValidText(s, accepts, fields) && fields <= values.Keys
    ensures RenderedText(s, accepts, values).Some?
    ensures (forall name :: name in fields ==> SafeValue(values[name])) ==>
      var out := RenderedText(s, accepts, values).value;
      !HasDelimiter(out) && ValidText(out, accepts, fields) && RenderedText(out, accepts, values) == Some(out)
  {
    if forall name :: name in fields ==> SafeValue(values[name]) {
      var lookup := Lookup(values);
      SubstitutionStaysClean(Tokens(s, 0, accepts), lookup);
      var out := RenderedText(s, accepts, values).value;
      CleanTextIsFixed(out, 0, accepts, lookup);
      CleanTextIsFixed(out, 0, accepts, Nothing);
      assert out[0..] == out;
    }
  }

  // ----- Exactly the safe values ---------------------------------------------------------------

  /** The text renders, and to no template delimiter. */
  predicate StaysFree(s: string, accepts: string -> bool, values: map<string, string>) {
    RenderedText(s, accepts, values).Some? && !HasDelimiter(RenderedText(s, accepts, values).value)
  }

  ghost predicate AllSafe(values: map<string, string>) {
    forall name :: name in values ==> SafeValue(values[name])
  }

  /** The values are those of accepted field names. */
  ghost predicate Named(accepts: string -> bool, values: map<string, string>) {
    forall name :: name in values ==> IsName(name) && accepts(name)
  }

  /** One placeholder, with at most one brace before or after it. */
  function Around(before: string, name: string, after: string): string {
    before + ("{{" + name + "}}") + after
  }

  predicate AtMostOneBrace(before: string, after: string) {
    || (before == "" && after == "")
    || (after == "" && (before == "{" || before == "}"))
    || (before == "" && (after == "{" || after == "}"))
  }

  lemma NoPlaceholderAt(s: string, i: nat, accepts: string -> bool)
    requires i + 2 < |s| && (s[i] == '}' || s[i + 2] == '{')
    ensures MatchAt(s, i, accepts).None?
  {
    if s[i + 2] == '{' {
      assert SkipSpaces(s, i + 2) == i + 2 == NameEnd(s, i + 2);
    }
  }

  /** A brace before a placeholder belongs to no placeholder. */
  lemma BraceToken(c: char, rest: string, accepts: string -> bool)
    requires |rest| > 1 && (c == '}' || rest[1] == '{')
    ensures Tokens([c] + rest, 0, accepts) == [Char(c)] + Tokens(rest, 0, accepts)
  {
    NoPlaceholderAt([c] + rest, 0, accepts);
    TokensShift([c] + rest, 1, rest, accepts);
  }

  lemma ShortTokens(s: string, accepts: string -> bool)
    requires |s| <= 1
    ensures Tokens(s, 0, accepts) == Chars(s)
  {
  }

  lemma NameTokens(name: string, rest: string, accepts: string -> bool)
    requires IsName(name) && accepts(name)
    ensures Tokens(("{{" + name + "}}") + rest, 0, accepts) == [Field(name)] + Tokens(rest, 0, accepts)
  {
    var text := "{{" + name + "}}";
    assert text == "{{" + "" + name + "" + "}}" && Blank("");
    PaddedNameMatches(text + rest, "", name, "", rest, accepts);
    MatchThenRest(text, name, rest, accepts);
  }

  lemma AroundTokens(before: string, name: string, after: string, accepts: string -> bool)
    requires AtMostOneBrace(before, after) && IsName(name) && accepts(name)
    ensures Tokens(Around(before, name, after), 0, accepts) == Chars(before) + [Field(name)] + Chars(after)
  {
    var rest := ("{{" + name + "}}") + after;
    NameTokens(name, after, accepts);
    ShortTokens(after, accepts);
    if before == "" {
      assert Around(before, name, after) == rest;
      assert Chars(before) + [Field(name)] + Chars(after) == [Field(name)] + Chars(after);
    } else {
      BraceToken(before[0], rest, accepts);
      assert Around(before, name, after) == [before[0]] + rest;
      assert Chars(before) + [Field(name)] + Chars(after) == [Char(before[0])] + ([Field(name)] + Chars(after));
    }
  }

  function Chars(s: string): seq<Token> {
    seq(|s|, i requires 0 <= i < |s| => Char(s[i]))
  }

  lemma AroundSubstituted(before: string, name: string, after: string, values: string -> string)
    requires |before| <= 1 && |after| <= 1
    ensures Substituted(Chars(before) + [Field(name)] + Chars(after), values) == before + values(name) + after
  {
    var rest := [Field(name)] + Chars(after);
    assert rest[1..] == Chars(after) && Chars(before) + [Field(name)] + Chars(after) == Chars(before) + rest;
    assert Substituted(Chars(after), values) == after by {
      assert after != "" ==> Chars(after)[1..] == [];
    }
    if before != "" {
      assert (Chars(before) + rest)[1..] == rest;
    } else {
      assert Chars(before) + rest == rest;
    }
  }

  /** Such a text is valid, and renders to the value with the brace. */
  lemma AroundRenders(before: string, name: string, after: string, accepts: string -> bool, values: map<string, string>)
    requires AtMostOneBrace(before, after) && IsName(name) && accepts(name) && name in values
    ensures ValidText(Around(before, name, after), accepts, values.Keys)
    ensures RenderedText(Around(before, name, after), accepts, values) == Some(before + values[name] + after)
  {
    AroundTokens(before, name, after, accepts);
    AroundSubstituted(before, name, after, Nothing);
    AroundSubstituted(before, name, after, Lookup(values));
    OneField(before, name, after);
  }

  lemma OneField(before: string, name: string, after: string)
    ensures Fields(Chars(before) + [Field(name)] + Chars(after)) == {name}
  {
    var tokens := Chars(before) + [Field(name)] + Chars(after);
    assert tokens[|before|] == Field(name);
  }

  /** An unsafe value meets a valid text that it turns into a delimiter. */
  lemma UnsafeValueShows(name: string, accepts: string -> bool, values: map<string, string>) returns (s: string)
    requires IsName(name) && accepts(name) && name in values && !SafeValue(values[name])
    ensures ValidText(s, accepts, values.Keys) && !StaysFree(s, accepts, values)
  {
    var v := values[name];
    var (before, after) := ("", "");
    if !HasDelimiter(v) {
      if IsSpecial(v[0]) {
        before := if v[0] == '}' then "}" else "{";
        assert IsDelimiter((before + v)[0], (before + v)[0 + 1]);
      } else {
        after := if v[|v| - 1] == '{' then "{" else "}";
        assert IsDelimiter((v + after)[|v| - 1], (v + after)[|v| - 1 + 1]);
      }
    }
    assert before + v + after == if before != "" then before + v else if after != "" then v + after else v;
    AroundRenders(before, name, after, accepts, values);
    s := Around(before, name, after);
  }

  /** Every valid text renders without a template delimiter exactly when every value is safe. */
  lemma TextsStayFreeIff(accepts: string -> bool, values: map<string, string>)
    requires Named(accepts, values)
    ensures (forall s :: ValidText(s, accepts, values.Keys) ==> StaysFree(s, accepts, values)) <==> AllSafe(values)
  {
    if AllSafe(values) {
      forall s | ValidText(s, accepts, values.Keys) ensures StaysFree(s, accepts, values) {
        ValidTextRenders(s, accepts, values.Keys, values);
      }
    } else {
      var name :| name in values && !SafeValue(values[name]);
      var s := UnsafeValueShows(name, accepts, values);
    }
  }
}
