/** Extra variables injected by credentials: nested values of restricted templates
  (app/custom_credentials.py, app/credential_extra_vars.py). */
module CredentialVariables {
  import opened Options
  import opened Strings
  import opened Values
  import opened Templates

  type Accepts = string -> bool

  /** `_validate_injector_value` and `_validate_value` */
  predicate ValidTemplate(v: Value, accepts: Accepts, fields: set<string>) {
    match v
    case Object(entries) => forall k :: k in entries ==> ValidTemplate(entries[k], accepts, fields)
    case Array(items) => forall i :: 0 <= i < |items| ==> ValidTemplate(items[i], accepts, fields)
    case Leaf(scalar) => scalar.Text? ==> ValidText(scalar.s, accepts, fields)
  }

  /** The strings of a value, keys aside. */
  ghost predicate HasText(v: Value, s: string) {
    match v
    case Object(entries) => exists k :: k in entries && HasText(entries[k], s)
    case Array(items) => exists i :: 0 <= i < |items| && HasText(items[i], s)
    case Leaf(scalar) => scalar == Text(s)
  }

  /** A template is valid exactly when each of its strings is. */
  lemma {:induction false} ValidTemplateIff(v: Value, accepts: Accepts, fields: set<string>)
    ensures ValidTemplate(v, accepts, fields) <==> forall s :: HasText(v, s) ==> ValidText(s, accepts, fields)
  {
    match v
    case Object(entries) =>
      forall k | k in entries
        ensures ValidTemplate(entries[k], accepts, fields) <==>
          forall s :: HasText(entries[k], s) ==> ValidText(s, accepts, fields)
      {
        ValidTemplateIff(entries[k], accepts, fields);
      }
    case Array(items) =>
      forall i | 0 <= i < |items|
        ensures ValidTemplate(items[i], accepts, fields) <==>
          forall s :: HasText(items[i], s) ==> ValidText(s, accepts, fields)
      {
        ValidTemplateIff(items[i], accepts, fields);
      }
    case Leaf(scalar) =>
      assert scalar.Text? ==> HasText(v, scalar.s);
  }

  /** The inner function `render`; None when a placeholder names no value. */
  function Rendered(v: Value, accepts: Accepts, values: map<string, string>): Option<Value> {
    match v
    case Object(entries) =>
      if forall k :: k in entries ==> Rendered(entries[k], accepts, values).Some? then
        Some(Object(map k | k in entries :: Rendered(entries[k], accepts, values).value))
      else None
    case Array(items) =>
      if forall i :: 0 <= i < |items| ==> Rendered(items[i], accepts, values).Some? then
        Some(Array(seq(|items|, i requires 0 <= i < |items| => Rendered(items[i], accepts, values).value)))
      else None
    case Leaf(scalar) =>
      if !scalar.Text? then Some(v)
      else match RenderedText(scalar.s, accepts, values) case None => None case Some(text) => Some(Leaf(Text(text)))
  }

  /** The value with every text in it rendered, and nothing else changed. */
  ghost predicate IsRendering(v: Value, out: Value, accepts: Accepts, values: map<string, string>) {
    match v
    case Object(entries) =>
      && out.Object? && out.fields.Keys == entries.Keys
      && forall k :: k in entries ==> IsRendering(entries[k], out.fields[k], accepts, values)
    case Array(items) =>
      && out.Array? && |out.items| == |items|
      && forall i :: 0 <= i < |items| ==> IsRendering(items[i], out.items[i], accepts, values)
    case Leaf(Text(s)) => out.Leaf? && out.scalar.Text? && RenderedText(s, accepts, values) == Some(out.scalar.s)
    case Leaf(_) => out == v
  }

  /** Rendering keeps the shape: keys, lengths and what is no text. */
  lemma {:induction false} RenderingKeepsShape(v: Value, accepts: Accepts, values: map<string, string>, out: Value)
    ensures Rendered(v, accepts, values) == Some(out) <==> IsRendering(v, out, accepts, values)
  {
    match v
    case Object(entries) =>
      if out.Object? && out.fields.Keys == entries.Keys {
        forall k | k in entries
          ensures Rendered(entries[k], accepts, values) == Some(out.fields[k]) <==>
            IsRendering(entries[k], out.fields[k], accepts, values)
        {
          RenderingKeepsShape(entries[k], accepts, values, out.fields[k]);
        }
        if IsRendering(v, out, accepts, values) {
          assert Rendered(v, accepts, values).value.fields == out.fields;
        }
      }
    case Array(items) =>
      if out.Array? && |out.items| == |items| {
        forall i | 0 <= i < |items|
          ensures Rendered(items[i], accepts, values) == Some(out.items[i]) <==>
            IsRendering(items[i], out.items[i], accepts, values)
        {
          RenderingKeepsShape(items[i], accepts, values, out.items[i]);
        }
        if IsRendering(v, out, accepts, values) {
          assert Rendered(v, accepts, values).value.items == out.items;
        }
      }
    case Leaf(_) =>
  }

  /** No string value holds a template delimiter. */
  predicate TextsFree(v: Value) {
    match v
    case Object(entries) => forall k :: k in entries ==> TextsFree(entries[k])
    case Array(items) => forall i :: 0 <= i < |items| ==> TextsFree(items[i])
    case Leaf(scalar) => scalar.Text? ==> !HasDelimiter(scalar.s)
  }

  /** No dictionary key holds a template delimiter; keys are neither validated nor rendered. */
  predicate KeysFree(v: Value) {
    match v
    case Object(entries) => forall k :: k in entries ==> !HasDelimiter(k) && KeysFree(entries[k])
    case Array(items) => forall i :: 0 <= i < |items| ==> KeysFree(items[i])
    case Leaf(_) => true
  }

  /** No delimiter anywhere, keys included. */
  predicate NoDelimiters(v: Value) {
    TextsFree(v) && KeysFree(v)
  }

  lemma {:induction false} RenderingKeepsKeys(v: Value, accepts: Accepts, values: map<string, string>)
    requires Rendered(v, accepts, values).Some?
    ensures KeysFree(Rendered(v, accepts, values).value) <==> KeysFree(v)
  {
    var out := Rendered(v, accepts, values).value;
    match v
    case Object(entries) =>
      forall k | k in entries ensures KeysFree(out.fields[k]) <==> KeysFree(entries[k]) {
        RenderingKeepsKeys(entries[k], accepts, values);
      }
    case Array(items) =>
      forall i | 0 <= i < |items| ensures KeysFree(out.items[i]) <==> KeysFree(items[i]) {
        RenderingKeepsKeys(items[i], accepts, values);
      }
    case Leaf(_) =>
  }

  /** Delimiters in a nested key pass the validation and come out as they were. */
  lemma NestedKeyKeepsDelimiter(values: map<string, string>)
    ensures var v := Object(map["{{ x }}" := Leaf(Null)]);
      && ValidTemplate(v, AnyName, {}) && Rendered(v, AnyName, values).Some?
      && !NoDelimiters(Rendered(v, AnyName, values).value)
  {
    var v := Object(map["{{ x }}" := Leaf(Null)]);
    assert IsDelimiter("{{ x }}"[0], "{{ x }}"[0 + 1]);
    assert "{{ x }}" in v.fields && !KeysFree(v);
    RenderingKeepsKeys(v, AnyName, values);
  }

  /** A validated value never meets an undefined field. */
  lemma {:induction false} ValidTemplateIsDefined(v: Value, accepts: Accepts, fields: set<string>,
                                                  values: map<string, string>)
    requires ValidTemplate(v, accepts, fields) && fields <= values.Keys
    ensures Rendered(v, accepts, values).Some?
  {
    match v
    case Object(entries) =>
      forall k | k in entries ensures Rendered(entries[k], accepts, values).Some? {
        ValidTemplateIsDefined(entries[k], accepts, fields, values);
      }
    case Array(items) =>
      forall i | 0 <= i < |items| ensures Rendered(items[i], accepts, values).Some? {
        ValidTemplateIsDefined(items[i], accepts, fields, values);
      }
    case Leaf(scalar) =>
      if scalar.Text? {
        ValidTextRenders(scalar.s, accepts, fields, values);
      }
  }

  lemma {:induction false} RenderingIsFinal(v: Value, accepts: Accepts, fields: set<string>,
                                            values: map<string, string>)
    requires ValidTemplate(v, accepts, fields) && fields <= values.Keys
    requires forall name :: name in fields ==> SafeValue(values[name])
    ensures Rendered(v, accepts, values).Some?
    ensures var out := Rendered(v, accepts, values).value;
      TextsFree(out) && ValidTemplate(out, accepts, fields) && Rendered(out, accepts, values) == Some(out)
  {
    ValidTemplateIsDefined(v, accepts, fields, values);
    var out := Rendered(v, accepts, values).value;
    match v
    case Object(entries) =>
      forall k | k in entries
        ensures TextsFree(out.fields[k]) && ValidTemplate(out.fields[k], accepts, fields)
        ensures Rendered(out.fields[k], accepts, values) == Some(out.fields[k])
      {
        RenderingIsFinal(entries[k], accepts, fields, values);
      }
      assert Rendered(out, accepts, values).Some?;
      assert Rendered(out, accepts, values).value.fields == out.fields;
    case Array(items) =>
      forall i | 0 <= i < |items|
        ensures TextsFree(out.items[i]) && ValidTemplate(out.items[i], accepts, fields)
        ensures Rendered(out.items[i], accepts, values) == Some(out.items[i])
      {
        RenderingIsFinal(items[i], accepts, fields, values);
      }
      assert Rendered(out, accepts, values).Some?;
      assert Rendered(out, accepts, values).value.items == out.items;
    case Leaf(scalar) =>
      if scalar.Text? {
        ValidTextRenders(scalar.s, accepts, fields, values);
      }
  }

  /** With safe values no string of the rendered value holds a template delimiter, it is
    valid again, and rendering it again changes nothing. Delimiters are left in keys only. */
  lemma CleanRenderingIsFinal(v: Value, accepts: Accepts, fields: set<string>, values: map<string, string>)
    requires ValidTemplate(v, accepts, fields) && fields <= values.Keys
    requires forall name :: name in fields ==> SafeValue(values[name])
    ensures Rendered(v, accepts, values).Some?
    ensures var out := Rendered(v, accepts, values).value;
      && ValidTemplate(out, accepts, fields) && Rendered(out, accepts, values) == Some(out)
      && TextsFree(out) && (NoDelimiters(out) <==> KeysFree(v))
  {
    RenderingIsFinal(v, accepts, fields, values);
    RenderingKeepsKeys(v, accepts, values);
  }

  /** No valid template over these fields renders to a template delimiter in a string. */
  ghost predicate TemplatesStayFree(accepts: Accepts, values: map<string, string>) {
    forall v :: ValidTemplate(v, accepts, values.Keys) ==> RendersFree(v, accepts, values)
  }

  predicate RendersFree(v: Value, accepts: Accepts, values: map<string, string>) {
    Rendered(v, accepts, values).Some? && TextsFree(Rendered(v, accepts, values).value)
  }

  /** The exact condition on the values: no delimiter inside, and no half of one at an end. */
  lemma TemplatesStayFreeIff(accepts: Accepts, values: map<string, string>)
    requires Named(accepts, values)
    ensures TemplatesStayFree(accepts, values) <==> AllSafe(values)
  {
    if AllSafe(values) {
      forall v | ValidTemplate(v, accepts, values.Keys) ensures RendersFree(v, accepts, values) {
        RenderingIsFinal(v, accepts, values.Keys, values);
      }
    } else {
      var name :| name in values && !SafeValue(values[name]);
      var s := UnsafeValueShows(name, accepts, values);
      assert ValidTemplate(Leaf(Text(s)), accepts, values.Keys) && !RendersFree(Leaf(Text(s)), accepts, values);
    }
  }

  // ----- The two kinds of credential -----------------------------------------------------------

  function AnyName(name: string): bool { true }

  function Or(values: map<string, string>, id: string, default: string): string {
    if id in values then values[id] else default
  }

  /** One item of the fields list. The type is stripped and lowered, "string" when absent; a secret
    flag that is no boolean is None. */
  datatype FieldEntry = NotMapping | FieldEntry(id: string, kind: string, secret: Option<bool>)

  predicate ValidField(entry: FieldEntry) {
    entry.FieldEntry? && IsName(entry.id) && entry.kind == "string" && entry.secret.Some?
  }

  /** The ids of the fields, in order. */
  function Ids(entries: seq<FieldEntry>): seq<string> {
    seq(|entries|, i requires 0 <= i < |entries| => if entries[i].FieldEntry? then entries[i].id else "")
  }

  /** Valid fields without repeats, and named valid templates over them; neither list is empty. */
  ghost predicate ValidDefinition(entries: seq<FieldEntry>, extraVars: map<string, Value>) {
    && entries != [] && extraVars != map[]
    && (forall i :: 0 <= i < |entries| ==> ValidField(entries[i]))
    && (forall i, j :: 0 <= i < j < |entries| ==> Ids(entries)[i] != Ids(entries)[j])
    && (forall k :: k in extraVars ==> IsName(k) && ValidTemplate(extraVars[k], AnyName, set id | id in Ids(entries)))
  }

  /** A definition is valid exactly with at least one field and one variable, with fields of type
    "string", named and told apart, and with named variables whose texts use these fields only. */
  lemma ValidDefinitionIff(entries: seq<FieldEntry>, extraVars: map<string, Value>)
    ensures ValidDefinition(entries, extraVars) <==>
      && entries != [] && extraVars != map[]
      && (forall i :: 0 <= i < |entries| ==>
            entries[i].FieldEntry? && IsName(entries[i].id) && entries[i].kind == "string" && entries[i].secret != None)
      && (forall i, j :: 0 <= i < j < |entries| ==> entries[i].id != entries[j].id)
      && (forall k :: k in extraVars ==> IsName(k) && UsesOnly(extraVars[k], entries))
  {
    if forall i :: 0 <= i < |entries| ==> ValidField(entries[i]) {
      var ids := Ids(entries);
      assert forall i :: 0 <= i < |entries| ==> entries[i].id == ids[i];
      forall k | k in extraVars
        ensures UsesOnly(extraVars[k], entries) <==> ValidTemplate(extraVars[k], AnyName, set id | id in ids)
      {
        var fields := set i | 0 <= i < |entries| && entries[i].FieldEntry? :: entries[i].id;
        assert fields == set id | id in ids;
        ValidTemplateIff(extraVars[k], AnyName, fields);
      }
    }
  }

  /** Every text of the value is valid over the ids of these fields. */
  ghost predicate UsesOnly(v: Value, entries: seq<FieldEntry>) {
    forall s :: HasText(v, s) ==>
      ValidText(s, AnyName, set i | 0 <= i < |entries| && entries[i].FieldEntry? :: entries[i].id)
  }

  /** Values for these fields only, and none of them blank. */
  ghost predicate CompleteValues(ids: seq<string>, values: map<string, string>) {
    && (forall name :: name in values ==> name in ids)
    && (forall i :: 0 <= i < |ids| ==> !Blank(Or(values, ids[i], "")))
  }

  /** `validate_custom_credential_definition`: the set of field ids of a valid definition. */
  method ValidateDefinition(entries: seq<FieldEntry>, extraVars: map<string, Value>)
    returns (fields: Option<set<string>>)
    ensures fields.Some? <==> ValidDefinition(entries, extraVars)
    ensures fields.Some? ==> fields.value == set id | id in Ids(entries)
  {
    if entries == [] || extraVars == map[] {
      return None;
    }
    var ids := Ids(entries);
    var known: set<string> := {};
    for n := 0 to |ids|
      invariant known == set id | id in ids[..n]
      invariant forall i :: 0 <= i < n ==> ValidField(entries[i])
      invariant forall i, j :: 0 <= i < j < n ==> ids[i] != ids[j]
    {
      if !ValidField(entries[n]) {
        return None;
      }
      if ids[n] in known {
        ghost var i :| 0 <= i < n && ids[i] == ids[n];
        return None;
      }
      known := known + {ids[n]};
      assert ids[..n + 1] == ids[..n] + [ids[n]];
    }
    assert ids[..|ids|] == ids;
    var todo := extraVars.Keys;
    while todo != {}
      invariant todo <= extraVars.Keys
      invariant forall k :: k in extraVars && k !in todo ==> IsName(k) && ValidTemplate(extraVars[k], AnyName, known)
    {
      var key :| key in todo;
      if !IsName(key) || !ValidTemplate(extraVars[key], AnyName, known) {
        return None;
      }
      todo := todo - {key};
    }
    return Some(known);
  }

  /** `validate_custom_credential_data` and `missing_custom_credential_fields`: the values of
    all fields, None when an unknown or a blank one is found. */
  method NormaliseValues(ids: seq<string>, values: map<string, string>) returns (r: Option<map<string, string>>)
    ensures r.Some? <==> CompleteValues(ids, values)
    ensures r.Some? <==> values.Keys == (set id | id in ids) && forall name :: name in values ==> !Blank(values[name])
    ensures r.Some? ==> r.value == values && values.Keys == set id | id in ids
  {
    if exists name :: name in values && name !in ids {
      return None;
    }
    var normalised: map<string, string> := map[];
    for n := 0 to |ids|
      invariant normalised.Keys == set id | id in ids[..n]
      invariant forall id :: id in normalised ==> normalised[id] == Or(values, id, "") && !Blank(normalised[id])
    {
      assert ids[..n + 1] == ids[..n] + [ids[n]];
      normalised := normalised[ids[n] := Or(values, ids[n], "")];
      if Blank(normalised[ids[n]]) {
        return None;
      }
    }
    assert ids[..|ids|] == ids && Blank("");
    forall i | 0 <= i < |ids| ensures !Blank(Or(values, ids[i], "")) && ids[i] in values {
      assert ids[i] in normalised;
    }
    assert normalised == values;
    return Some(normalised);
  }

  /** Safe values leave delimiters in nested keys only: outer keys are names. */
  ghost predicate LeavesKeysOnly(extraVars: map<string, Value>, out: Value) {
    TextsFree(out) && (NoDelimiters(out) <==> forall k :: k in extraVars ==> KeysFree(extraVars[k]))
  }

  lemma NamesAreClean(extraVars: map<string, Value>)
    requires forall k :: k in extraVars ==> IsName(k)
    ensures KeysFree(Object(extraVars)) <==> forall k :: k in extraVars ==> KeysFree(extraVars[k])
  {
    forall k | k in extraVars ensures !HasDelimiter(k) {
      assert forall i :: 0 <= i < |k| ==> IsNameChar(k[i]);
    }
  }

  /** `render_custom_credential_extra_vars` */
  method RenderCustom(entries: seq<FieldEntry>, extraVars: map<string, Value>, values: map<string, string>)
    returns (r: Option<Value>)
    ensures r.Some? <==> ValidDefinition(entries, extraVars) && CompleteValues(Ids(entries), values)
    ensures r.Some? ==> values.Keys == set id | id in Ids(entries)
    ensures r.Some? ==> Rendered(Object(extraVars), AnyName, values) == r
    ensures r.Some? ==> IsRendering(Object(extraVars), r.value, AnyName, values)
    ensures r.Some? && AllSafe(values) ==> LeavesKeysOnly(extraVars, r.value)
  {
    var fields := ValidateDefinition(entries, extraVars);
    if fields.None? {
      return None;
    }
    var normalised := NormaliseValues(Ids(entries), values);
    if normalised.None? {
      return None;
    }
    var mapping := Object(extraVars);
    ValidTemplateIsDefined(mapping, AnyName, fields.value, values);
    r := Rendered(mapping, AnyName, normalised.value);
    RenderingKeepsShape(mapping, AnyName, values, r.value);
    if AllSafe(values) {
      CleanRenderingIsFinal(mapping, AnyName, fields.value, values);
      NamesAreClean(extraVars);
    }
  }

  predicate UserOrPassword(name: string) { name == "user" || name == "passwd" }

  const CREDENTIAL_FIELDS := {"user", "passwd"}

  /** `render_credential_extra_vars` of a mapping that is present. */
  method RenderCredential(mapping: map<string, Value>, user: string, password: string) returns (r: Option<Value>)
    ensures r.Some? <==>
      forall k :: k in mapping ==> IsName(k) && ValidTemplate(mapping[k], UserOrPassword, CREDENTIAL_FIELDS)
    ensures r.Some? ==> r == Rendered(Object(mapping), UserOrPassword, map["user" := user, "passwd" := password])
    ensures r.Some? ==>
      IsRendering(Object(mapping), r.value, UserOrPassword, map["user" := user, "passwd" := password])
    ensures r.Some? && SafeValue(user) && SafeValue(password) ==> LeavesKeysOnly(mapping, r.value)
  {
    var todo := mapping.Keys;
    while todo != {}
      invariant todo <= mapping.Keys
      invariant forall k :: k in mapping && k !in todo ==>
        IsName(k) && ValidTemplate(mapping[k], UserOrPassword, CREDENTIAL_FIELDS)
    {
      var key :| key in todo;
      if !IsName(key) || !ValidTemplate(mapping[key], UserOrPassword, CREDENTIAL_FIELDS) {
        return None;
      }
      todo := todo - {key};
    }
    var values := map["user" := user, "passwd" := password];
    ValidTemplateIsDefined(Object(mapping), UserOrPassword, CREDENTIAL_FIELDS, values);
    r := Rendered(Object(mapping), UserOrPassword, values);
    RenderingKeepsShape(Object(mapping), UserOrPassword, values, r.value);
    if SafeValue(user) && SafeValue(password) {
      CleanRenderingIsFinal(Object(mapping), UserOrPassword, CREDENTIAL_FIELDS, values);
      NamesAreClean(mapping);
    }
  }

  /** A user and a password, with any plain text between them. */
  lemma LoginRenders(between: string, user: string, password: string)
    requires '{' !in between && !HasDelimiter(between)
    ensures var values := map["user" := user, "passwd" := password];
      var text := "" + ("{{" + "user" + "}}") + between + ("{{" + "passwd" + "}}") + "";
      && ValidText(text, UserOrPassword, values.Keys)
      && RenderedText(text, UserOrPassword, values) == Some("" + user + between + password + "")
  {
    assert "" + between + "" == between;
    TwoPlaceholdersRender("", "user", between, "passwd", "", UserOrPassword,
                          map["user" := user, "passwd" := password]);
  }

  /** A value that holds the placeholder of another field is inserted as it is; a second rendering
    would expand it. */
  lemma UnsafeValueExpandsLater(a: string, b: string, x: string)
    requires IsName(a) && IsName(b) && a != b
    ensures var (first, second) := (Around("", a, ""), Around("", b, ""));
      var values := map[a := second, b := x];
      RenderedText(first, AnyName, values) == Some(second) && RenderedText(second, AnyName, values) == Some(x)
  {
    var values := map[a := Around("", b, ""), b := x];
    AroundRenders("", a, "", AnyName, values);
    AroundRenders("", b, "", AnyName, values);
    assert "" + values[a] + "" == values[a] && "" + x + "" == x;
  }
}
