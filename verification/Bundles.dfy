/** The payload of a portable export (app/services/config_portability.py): collecting the files
  that steps name.

  File contents, their suffixes, project slugs and the digest come in as functions; a path is in
  the file table when it is safe and names a file of its checkout. */
module Bundles {
  import opened Options
  import opened Strings
  import opened Paths

  type Bytes = seq<bv8>

  /** A repository and a path in its checkout. */
  type Key = (nat, string)

  /** A step of the document, with the database step it describes. */
  datatype Step = Step(repo: Option<nat>, path: string, script: bool, playbook: string, payload: Option<string>,
                       repository: Option<string>)

  datatype Project = Project(name: string, repository: Option<string>, steps: seq<Step>)

  datatype Asset = Asset(ref: string, script: bool, path: string, suggestedPath: string, sha256: string, size: nat)

  datatype Environment = Environment(files: map<Key, Bytes>, suffix: Key -> string, slug: string -> string,
                                     digest: Bytes -> string)
  {
    /** Suffixes are empty or start with their only dot; slugs are words of letters, digits and
      dashes. Neither holds a slash. */
    ghost predicate WellFormed() {
      && (forall key :: suffix(key) == "" || (suffix(key)[0] == '.' && '/' !in suffix(key) && '.' !in suffix(key)[1..]))
      && (forall name :: slug(name) != "" && '/' !in slug(name) && '.' !in slug(name))
    }
  }

  // ----- Names ---------------------------------------------------------------------------------

  function Digit(d: nat): char
    requires d < 10
  {
    "0123456789"[d]
  }

  function Decimal(n: nat): string {
    if n < 10 then [Digit(n)] else Decimal(n / 10) + [Digit(n % 10)]
  }

  lemma {:induction false} DecimalInjective(m: nat, n: nat)
    requires Decimal(m) == Decimal(n)
    ensures m == n
  {
    DecimalDigits(m);
    DecimalDigits(n);
    if m >= 10 {
      var (a, b) := (Decimal(m / 10), Decimal(n / 10));
      assert a == Decimal(m)[..|Decimal(m)| - 1] && b == Decimal(n)[..|Decimal(n)| - 1];
      DecimalInjective(m / 10, n / 10);
      assert Digit(m % 10) == Decimal(m)[|Decimal(m)| - 1] == Digit(n % 10);
    }
  }

  lemma {:induction false} DecimalDigits(n: nat)
    ensures Decimal(n) != "" && (|Decimal(n)| == 1 <==> n < 10)
    ensures forall i :: 0 <= i < |Decimal(n)| ==> '0' <= Decimal(n)[i] <= '9'
  {
    if n >= 10 {
      DecimalDigits(n / 10);
    }
  }

  /** The reference of the n-th asset, counting from 0. */
  function Ref(n: nat): string {
    "asset_" + Decimal(n + 1)
  }

  /** The suffix an asset file gets. */
  function AssetSuffix(suffix: string, script: bool): string {
    if script then (if suffix == "" then ".sh" else suffix)
    else if suffix == ".yml" || suffix == ".yaml" then suffix else ".yml"
  }

  function MemberPath(file: string, script: bool): string {
    "payload/" + (if script then "scripts" else "playbooks") + "/" + file
  }

  function SuggestedPath(slug: string, file: string): string {
    "journeyman-imports/" + slug + "/" + file
  }

  // ----- Collecting ----------------------------------------------------------------------------

  function FileName(env: Environment, n: nat, key: Key, script: bool): string {
    Ref(n) + AssetSuffix(env.suffix(key), script)
  }

  /** The first use of a file: whether as a script, and in which project. */
  datatype Use = Use(key: Key, script: bool, project: string)

  predicate Seen(uses: seq<Use>, key: Key) {
    exists n :: 0 <= n < |uses| && uses[n].key == key
  }

  /** The files of the steps, in the order of their first uses. */
  function Used(uses: seq<Use>, step: Step, project: string): seq<Use> {
    if step.repo.None? || Seen(uses, (step.repo.value, step.path)) then uses
    else uses + [Use((step.repo.value, step.path), step.script, project)]
  }

  function UsedBySteps(uses: seq<Use>, steps: seq<Step>, project: string): seq<Use> {
    if steps == [] then uses
    else Used(UsedBySteps(uses, steps[..|steps| - 1], project), steps[|steps| - 1], project)
  }

  function UsedBy(document: seq<Project>): seq<Use> {
    if document == [] then []
    else var last := document[|document| - 1]; UsedBySteps(UsedBy(document[..|document| - 1]), last.steps, last.name)
  }

  predicate NamesFile(step: Step, key: Key) {
    step.repo == Some(key.0) && step.path == key.1
  }

  /** This step is the first of these to name the file of the use. */
  ghost predicate FirstInSteps(steps: seq<Step>, i: nat, use: Use) {
    && i < |steps| && NamesFile(steps[i], use.key) && steps[i].script == use.script
    && forall j :: 0 <= j < i ==> !NamesFile(steps[j], use.key)
  }

  /** This step is the first of the document to name the file of the use. */
  ghost predicate FirstUse(document: seq<Project>, p: nat, i: nat, use: Use) {
    && p < |document| && document[p].name == use.project && FirstInSteps(document[p].steps, i, use)
    && forall q :: 0 <= q < p ==> NoneNames(document[q].steps, use.key)
  }

  ghost predicate NoneNames(steps: seq<Step>, key: Key) {
    forall j :: 0 <= j < |steps| ==> !NamesFile(steps[j], key)
  }

  lemma {:induction false} FirstUsesOfSteps(uses: seq<Use>, steps: seq<Step>, project: string)
    ensures var r := UsedBySteps(uses, steps, project);
      && uses <= r && (forall key :: Seen(r, key) <==> Seen(uses, key) || !NoneNames(steps, key))
      && forall n :: |uses| <= n < |r| ==>
           r[n].project == project && !Seen(uses, r[n].key) && exists i :: FirstInSteps(steps, i, r[n])
  {
    var r := UsedBySteps(uses, steps, project);
    if steps != [] {
      var (init, last) := (steps[..|steps| - 1], steps[|steps| - 1]);
      var before := UsedBySteps(uses, init, project);
      FirstUsesOfSteps(uses, init, project);
      forall key ensures NoneNames(steps, key) <==> NoneNames(init, key) && !NamesFile(last, key) {
        assert forall j :: 0 <= j < |init| ==> steps[j] == init[j];
      }
      forall n | |uses| <= n < |r| ensures exists i :: FirstInSteps(steps, i, r[n]) {
        if n < |before| {
          var i :| FirstInSteps(init, i, before[n]);
          assert FirstInSteps(steps, i, r[n]);
        } else {
          assert NoneNames(init, r[n].key);
          assert FirstInSteps(steps, |init|, r[n]);
        }
      }
      if r != before {
        SeenMore(before, r[|before|]);
      }
    }
  }

  ghost predicate SomeNames(document: seq<Project>, key: Key) {
    exists p :: 0 <= p < |document| && !NoneNames(document[p].steps, key)
  }

  ghost predicate HasFirstUse(document: seq<Project>, use: Use) {
    exists p: nat, i: nat :: FirstUse(document, p, i, use)
  }

  /** A use for every file that some step names, and each is as its first step says. */
  lemma {:induction false} UsesAreFirstUses(document: seq<Project>)
    ensures forall key :: Seen(UsedBy(document), key) <==> SomeNames(document, key)
    ensures forall n :: 0 <= n < |UsedBy(document)| ==> HasFirstUse(document, UsedBy(document)[n])
  {
    if document != [] {
      var (init, last) := (document[..|document| - 1], document[|document| - 1]);
      var (before, r) := (UsedBy(init), UsedBy(document));
      UsesAreFirstUses(init);
      FirstUsesOfSteps(before, last.steps, last.name);
      forall key ensures SomeNames(document, key) <==> SomeNames(init, key) || !NoneNames(last.steps, key) {
        SomeNamesMore(init, last, key);
        assert document == init + [last];
      }
      forall n | 0 <= n < |r| ensures HasFirstUse(document, r[n]) {
        if n < |before| {
          assert r[n] == before[n] && HasFirstUse(init, before[n]);
          var p: nat, i: nat :| FirstUse(init, p, i, before[n]);
          assert FirstUse(document, p, i, r[n]);
        } else {
          assert !Seen(before, r[n].key) && !SomeNames(init, r[n].key);
          var i :| FirstInSteps(last.steps, i, r[n]);
          assert FirstUse(document, |init|, i, r[n]);
        }
      }
    }
  }

  lemma SomeNamesMore(document: seq<Project>, next: Project, key: Key)
    ensures SomeNames(document + [next], key) <==> SomeNames(document, key) || !NoneNames(next.steps, key)
  {
    var more := document + [next];
    assert more[|document|] == next;
    if p :| 0 <= p < |document| && !NoneNames(document[p].steps, key) {
      assert more[p] == document[p];
    }
  }

  /** The n-th asset. */
  function AssetOf(env: Environment, n: nat, use: Use): Asset
    requires use.key in env.files
  {
    var file := FileName(env, n, use.key, use.script);
    Asset(Ref(n), use.script, MemberPath(file, use.script), SuggestedPath(env.slug(use.project), file),
          env.digest(env.files[use.key]), |env.files[use.key]|)
  }

  ghost predicate IsAsset(env: Environment, asset: Asset, n: nat, use: Use) {
    use.key in env.files && asset == AssetOf(env, n, use)
  }

  /** The assets belong to distinct files, and the archive holds their bytes and nothing else. */
  ghost predicate IsBundle(env: Environment, uses: seq<Use>, assets: seq<Asset>, archive: map<string, Bytes>) {
    && AreAssets(env, uses, assets) && DistinctFiles(uses)
    && HoldsAssets(env, uses, assets, archive) && HoldsOnly(assets, archive)
  }

  ghost predicate DistinctFiles(uses: seq<Use>) {
    forall m, n :: 0 <= m < n < |uses| ==> uses[m].key != uses[n].key
  }

  ghost predicate HoldsOnly(assets: seq<Asset>, archive: map<string, Bytes>) {
    forall member :: member in archive ==> HasMember(assets, member)
  }

  ghost predicate AreAssets(env: Environment, uses: seq<Use>, assets: seq<Asset>) {
    |uses| == |assets| && forall n :: 0 <= n < |assets| ==> IsAsset(env, assets[n], n, uses[n])
  }

  ghost predicate HoldsAssets(env: Environment, uses: seq<Use>, assets: seq<Asset>, archive: map<string, Bytes>) {
    |uses| == |assets| && forall n :: 0 <= n < |assets| ==> IsMember(env, uses[n], assets[n], archive)
  }

  ghost predicate IsMember(env: Environment, use: Use, asset: Asset, archive: map<string, Bytes>) {
    use.key in env.files && asset.path in archive && archive[asset.path] == env.files[use.key]
  }

  ghost predicate HasMember(assets: seq<Asset>, member: string) {
    exists n :: 0 <= n < |assets| && assets[n].path == member
  }

  /** The step refers to the asset of the file it names; in a portable export it also runs the
    suggested path. */
  ghost predicate Bound(step: Step, after: Step, uses: seq<Use>, assets: seq<Asset>, internal: bool) {
    step.repo.Some? && exists n :: 0 <= n < |uses| && n < |assets| && BoundTo(step, after, uses[n], assets[n], internal)
  }

  predicate BoundTo(step: Step, after: Step, use: Use, asset: Asset, internal: bool)
    requires step.repo.Some?
  {
    && use.key == (step.repo.value, step.path)
    && after == step.(payload := Some(asset.ref), playbook := if internal then step.playbook else asset.suggestedPath)
  }

  ghost predicate RefersToAsset(env: Environment, step: Step, after: Step, asset: Asset, internal: bool) {
    && step.repo.Some? && (step.repo.value, step.path) in env.files
    && after.payload == Some(asset.ref) && after.playbook == (if internal then step.playbook else asset.suggestedPath)
    && asset.sha256 == env.digest(env.files[(step.repo.value, step.path)])
    && asset.size == |env.files[(step.repo.value, step.path)]|
  }

  /** An exported step refers to the asset with the digest and size of the file it names. An internal
    export keeps its playbook, a portable one runs the suggested path; nothing else changes. */
  lemma ExportedStepRefers(env: Environment, step: Step, after: Step, uses: seq<Use>, assets: seq<Asset>,
                           archive: map<string, Bytes>, internal: bool)
    requires IsBundle(env, uses, assets, archive) && Bound(step, after, uses, assets, internal)
    ensures after.repo == step.repo && after.path == step.path && after.script == step.script
    ensures after.repository == step.repository
    ensures exists n :: 0 <= n < |assets| && RefersToAsset(env, step, after, assets[n], internal)
  {
    var n :| 0 <= n < |uses| && n < |assets| && BoundTo(step, after, uses[n], assets[n], internal);
    assert IsAsset(env, assets[n], n, uses[n]);
  }

  /** Assets are numbered from 1. */
  lemma FirstRefs()
    ensures Ref(0) == "asset_1" && Ref(9) == "asset_10"
  {
    assert Decimal(10) == Decimal(1) + [Digit(0)];
  }

  function Directory(script: bool): string {
    if script then "payload/scripts/" else "payload/playbooks/"
  }

  function KeptSuffix(script: bool, suffix: string): string {
    match (script, suffix)
    case (true, "") => ".sh"
    case (true, _) => suffix
    case (false, ".yaml") => ".yaml"
    case (false, _) => ".yml"
  }

  /** Scripts keep their suffix or get ".sh"; playbooks keep a YAML suffix or get ".yml". They have
    directories of their own in the archive, and suggest one directory for each project. */
  lemma AssetNamesAre(env: Environment, n: nat, use: Use)
    requires use.key in env.files
    ensures var asset := AssetOf(env, n, use);
      && asset.ref == Ref(n) && asset.script == use.script
      && asset.path == Directory(use.script) + asset.ref + KeptSuffix(use.script, env.suffix(use.key))
      && asset.suggestedPath == "journeyman-imports/" + env.slug(use.project) + "/" + asset.ref
                                + KeptSuffix(use.script, env.suffix(use.key))
  {
    var file := FileName(env, n, use.key, use.script);
    assert "payload/" + "scripts" + "/" + file == "payload/scripts/" + file;
    assert "payload/" + "playbooks" + "/" + file == "payload/playbooks/" + file;
  }

  lemma MembersDiffer(env: Environment, m: nat, u: Use, n: nat, v: Use)
    requires env.WellFormed() && m != n
    ensures MemberPath(FileName(env, m, u.key, u.script), u.script)
         != MemberPath(FileName(env, n, v.key, v.script), v.script)
  {
    NamesDiffer(env, m, u.key, u.script, n, v.key, v.script);
    MemberNames(env, m, u.key, u.script, u.project);
    MemberNames(env, n, v.key, v.script, v.project);
  }

  lemma BundleGrows(env: Environment, uses: seq<Use>, assets: seq<Asset>, archive: map<string, Bytes>, use: Use,
                    asset: Asset)
    requires env.WellFormed() && IsBundle(env, uses, assets, archive) && !Seen(uses, use.key)
    requires IsAsset(env, asset, |assets|, use)
    ensures IsBundle(env, uses + [use], assets + [asset], archive[asset.path := env.files[use.key]])
  {
    NewPath(env, uses, assets, use, asset);
    MembersGrow(assets, asset, archive, env.files[use.key]);
    ArchiveGrows(env, uses, assets, archive, use, asset);
    FilesGrow(uses, use);
  }

  lemma FilesGrow(uses: seq<Use>, use: Use)
    requires DistinctFiles(uses) && !Seen(uses, use.key)
    ensures DistinctFiles(uses + [use])
  {
  }

  lemma NewPath(env: Environment, uses: seq<Use>, assets: seq<Asset>, use: Use, asset: Asset)
    requires env.WellFormed() && AreAssets(env, uses, assets) && IsAsset(env, asset, |assets|, use)
    ensures AreAssets(env, uses + [use], assets + [asset])
    ensures forall n :: 0 <= n < |assets| ==> assets[n].path != asset.path
  {
    forall n | 0 <= n < |assets| ensures assets[n].path != asset.path {
      assert IsAsset(env, assets[n], n, uses[n]);
      MembersDiffer(env, n, uses[n], |assets|, use);
    }
  }

  lemma ArchiveGrows(env: Environment, uses: seq<Use>, assets: seq<Asset>, archive: map<string, Bytes>, use: Use,
                     asset: Asset)
    requires AreAssets(env, uses, assets) && HoldsAssets(env, uses, assets, archive) && use.key in env.files
    requires forall n :: 0 <= n < |assets| ==> assets[n].path != asset.path
    requires AreAssets(env, uses + [use], assets + [asset])
    ensures HoldsAssets(env, uses + [use], assets + [asset], archive[asset.path := env.files[use.key]])
  {
    var (u, a, after) := (uses + [use], assets + [asset], archive[asset.path := env.files[use.key]]);
    forall n | 0 <= n < |a| ensures IsMember(env, u[n], a[n], after) {
      assert n < |assets| ==> IsMember(env, uses[n], assets[n], archive);
    }
  }

  lemma MembersGrow(assets: seq<Asset>, asset: Asset, archive: map<string, Bytes>, content: Bytes)
    requires HoldsOnly(assets, archive)
    ensures HoldsOnly(assets + [asset], archive[asset.path := content])
  {
    var more := assets + [asset];
    assert more[|assets|] == asset;
    forall member | member in archive ensures HasMember(more, member) {
      assert HasMember(assets, member);
      var n :| 0 <= n < |assets| && assets[n].path == member;
      assert more[n].path == member;
    }
  }

  /** `asset_refs`: the files seen so far, with the references of their assets. */
  ghost predicate RefersTo(refs: map<Key, string>, uses: seq<Use>, assets: seq<Asset>) {
    && |uses| == |assets| && (forall key :: key in refs <==> Seen(uses, key))
    && (forall n :: 0 <= n < |uses| ==> uses[n].key in refs && refs[uses[n].key] == assets[n].ref)
  }

  lemma RefersMore(refs: map<Key, string>, uses: seq<Use>, assets: seq<Asset>, use: Use, asset: Asset)
    requires RefersTo(refs, uses, assets) && use.key !in refs
    ensures RefersTo(refs[use.key := asset.ref], uses + [use], assets + [asset])
  {
    SeenMore(uses, use);
    forall n | 0 <= n < |uses| ensures uses[n].key != use.key {
      assert Seen(uses, uses[n].key);
    }
  }

  /** The local variables of `collect_export_payload`. */
  class Collector {
    const env: Environment
    const internal: bool
    var archive: map<string, Bytes>
    var assets: seq<Asset>
    var refs: map<Key, string>
    ghost var uses: seq<Use>

    ghost predicate Valid()
      reads this
    {
      env.WellFormed() && IsBundle(env, uses, assets, archive) && RefersTo(refs, uses, assets)
    }

    constructor (env: Environment, internal: bool)
      requires env.WellFormed()
      ensures Valid() && this.env == env && this.internal == internal && uses == [] && assets == []
    {
      this.env, this.internal := env, internal;
      archive, assets, refs, uses := map[], [], map[], [];
    }

    /** A file seen for the first time. */
    method AddAsset(use: Use)
      requires Valid() && use.key in env.files && use.key !in refs
      modifies this
      ensures Valid() && uses == old(uses) + [use] && old(assets) <= assets
    {
      var asset := AssetOf(env, |assets|, use);
      BundleGrows(env, uses, assets, archive, use, asset);
      RefersMore(refs, uses, assets, use, asset);
      archive := archive[asset.path := env.files[use.key]];
      assets, refs, uses := assets + [asset], refs[use.key := asset.ref], uses + [use];
    }

    /** One step: the error cases are a missing repository and an unsafe or absent file. */
    method AddStep(step: Step, project: string) returns (r: Option<Step>)
      requires Valid()
      modifies this
      ensures Valid() && old(uses) <= uses && old(assets) <= assets
      ensures r.Some? <==> Exportable(env, step)
      ensures r.Some? ==> uses == Used(old(uses), step, project) && Bound(step, r.value, uses, assets, internal)
    {
      if step.repo.None? || (step.repo.value, step.path) !in env.files {
        return None;
      }
      var key := (step.repo.value, step.path);
      if key !in refs {
        AddAsset(Use(key, step.script, project));
        assert uses[|old(uses)|].key == key;
      }
      var suggested := FindAsset(key);
      return Some(step.(payload := Some(refs[key]), playbook := if internal then step.playbook else suggested));
    }

    /** The suggested path of the asset of a known file. */
    method FindAsset(key: Key) returns (suggested: string)
      requires Valid() && key in refs
      ensures exists n ::
        && 0 <= n < |uses| && uses[n].key == key
        && refs[key] == assets[n].ref && suggested == assets[n].suggestedPath
    {
      ghost var n :| 0 <= n < |uses| && uses[n].key == key;
      var k := 0;
      while assets[k].ref != refs[key]
        invariant 0 <= k <= n
        decreases n - k
      {
        k := k + 1;
      }
      assert IsAsset(env, assets[k], k, uses[k]) && IsAsset(env, assets[n], n, uses[n]);
      RefInjective(k, n);
      return assets[k].suggestedPath;
    }
  }

  lemma SeenMore(uses: seq<Use>, use: Use)
    ensures forall key :: Seen(uses + [use], key) <==> key == use.key || Seen(uses, key)
  {
    var more := uses + [use];
    assert more[|uses|] == use;
    forall key | Seen(uses, key) ensures Seen(more, key) {
      var n :| 0 <= n < |uses| && uses[n].key == key;
      assert more[n].key == key;
    }
  }

  /** A name that starts with a reference and a dot belongs to that reference only. */
  lemma NamedOnce(m: nat, n: nat, name: string)
    requires Ref(m) + "." <= name && Ref(n) + "." <= name
    ensures m == n
  {
    RefHasNoDot(m);
    RefHasNoDot(n);
    assert name[|Ref(m)|] == (Ref(m) + ".")[|Ref(m)|] == '.' && name[|Ref(n)|] == (Ref(n) + ".")[|Ref(n)|] == '.';
    assert forall i :: 0 <= i < |Ref(m)| ==> name[i] == (Ref(m) + ".")[i] == Ref(m)[i];
    assert forall i :: 0 <= i < |Ref(n)| ==> name[i] == (Ref(n) + ".")[i] == Ref(n)[i];
    assert |Ref(m)| == |Ref(n)|;
    assert Ref(m) == Ref(n);
    RefInjective(m, n);
  }

  lemma FileNameStart(env: Environment, n: nat, key: Key, script: bool)
    requires env.WellFormed()
    ensures Ref(n) + "." <= FileName(env, n, key, script)
  {
    var suffix := AssetSuffix(env.suffix(key), script);
    assert suffix == "." + suffix[1..];
    assert FileName(env, n, key, script) == (Ref(n) + ".") + suffix[1..];
  }

  /** File names of different assets differ, whatever their suffixes. */
  lemma NamesDiffer(env: Environment, m: nat, k: Key, s: bool, n: nat, l: Key, t: bool)
    requires env.WellFormed() && m != n
    ensures FileName(env, m, k, s) != FileName(env, n, l, t)
  {
    FileNameStart(env, m, k, s);
    FileNameStart(env, n, l, t);
    if FileName(env, m, k, s) == FileName(env, n, l, t) {
      NamedOnce(m, n, FileName(env, m, k, s));
    }
  }

  lemma RefHasNoDot(n: nat)
    ensures forall i :: 0 <= i < |Ref(n)| ==> Ref(n)[i] != '.' && Ref(n)[i] != '/' && !IsSpace(Ref(n)[i])
  {
    DecimalDigits(n + 1);
  }

  lemma RefInjective(m: nat, n: nat)
    requires Ref(m) == Ref(n)
    ensures m == n
  {
    assert Decimal(m + 1) == Ref(m)[6..] && Decimal(n + 1) == Ref(n)[6..];
    DecimalInjective(m + 1, n + 1);
  }

  lemma MemberNames(env: Environment, n: nat, key: Key, script: bool, project: string)
    requires env.WellFormed()
    ensures '/' !in FileName(env, n, key, script)
    ensures Name(MemberPath(FileName(env, n, key, script), script)) == FileName(env, n, key, script)
    ensures Name(SuggestedPath(env.slug(project), FileName(env, n, key, script))) == FileName(env, n, key, script)
  {
    var file := FileName(env, n, key, script);
    RefHasNoDot(n);
    assert '/' !in file;
    NameOfJoin("payload/" + (if script then "scripts" else "playbooks"), file);
    NameOfJoin("journeyman-imports/" + env.slug(project), file);
  }

  predicate Exportable(env: Environment, step: Step) {
    step.repo.Some? && (step.repo.value, step.path) in env.files
  }

  /** Every step of the result is bound to the asset of the file it named. */
  ghost predicate AllBound(steps: seq<Step>, bound: seq<Step>, uses: seq<Use>, assets: seq<Asset>, internal: bool) {
    |bound| == |steps| && forall i :: 0 <= i < |steps| ==> Bound(steps[i], bound[i], uses, assets, internal)
  }

  lemma BoundLater(steps: seq<Step>, bound: seq<Step>, uses: seq<Use>, assets: seq<Asset>, uses': seq<Use>,
                   assets': seq<Asset>, internal: bool)
    requires AllBound(steps, bound, uses, assets, internal) && uses <= uses' && assets <= assets'
    ensures AllBound(steps, bound, uses', assets', internal)
  {
    forall i | 0 <= i < |steps| ensures Bound(steps[i], bound[i], uses', assets', internal) {
      assert Bound(steps[i], bound[i], uses, assets, internal);
      var n :| 0 <= n < |uses| && n < |assets| && BoundTo(steps[i], bound[i], uses[n], assets[n], internal);
      assert uses'[n] == uses[n] && assets'[n] == assets[n];
    }
  }

  /** The first n steps of the project are exportable, and bound. */
  ghost predicate Collected(env: Environment, first: seq<Use>, project: Project, n: nat, bound: seq<Step>,
                            uses: seq<Use>, assets: seq<Asset>, internal: bool) {
    && n <= |project.steps| && AllBound(project.steps[..n], bound, uses, assets, internal)
    && uses == UsedBySteps(first, project.steps[..n], project.name)
    && forall i :: 0 <= i < n ==> Exportable(env, project.steps[i])
  }

  lemma CollectedMore(env: Environment, first: seq<Use>, project: Project, n: nat, bound: seq<Step>, uses: seq<Use>,
                      assets: seq<Asset>,
                      next: Step, uses': seq<Use>, assets': seq<Asset>, internal: bool)
    requires Collected(env, first, project, n, bound, uses, assets, internal) && n < |project.steps|
    requires uses <= uses' && assets <= assets'
    requires Exportable(env, project.steps[n]) && uses' == Used(uses, project.steps[n], project.name)
    requires Bound(project.steps[n], next, uses', assets', internal)
    ensures Collected(env, first, project, n + 1, bound + [next], uses', assets', internal)
  {
    BoundLater(project.steps[..n], bound, uses, assets, uses', assets', internal);
    var more := project.steps[..n + 1];
    assert more[..n] == project.steps[..n] && more[n] == project.steps[n];
    assert AllBound(more, bound + [next], uses', assets', internal) by {
      forall i | 0 <= i < |more| ensures Bound(more[i], (bound + [next])[i], uses', assets', internal) {
        assert i < n ==> Bound(project.steps[..n][i], bound[i], uses', assets', internal);
      }
    }
  }

  method CollectNext(collector: Collector, ghost first: seq<Use>, project: Project, n: nat, bound: seq<Step>)
    returns (r: Option<seq<Step>>)
    requires collector.Valid() && n < |project.steps|
    requires Collected(collector.env, first, project, n, bound, collector.uses, collector.assets, collector.internal)
    modifies collector
    ensures collector.Valid() && old(collector.uses) <= collector.uses && old(collector.assets) <= collector.assets
    ensures r.None? ==> !Exportable(collector.env, project.steps[n])
    ensures r.Some? ==>
      Collected(collector.env, first, project, n + 1, r.value, collector.uses, collector.assets, collector.internal)
  {
    ghost var (uses, assets) := (collector.uses, collector.assets);
    var step := collector.AddStep(project.steps[n], project.name);
    if step.None? {
      return None;
    }
    CollectedMore(collector.env, first, project, n, bound, uses, assets, step.value, collector.uses, collector.assets,
                  collector.internal);
    return Some(bound + [step.value]);
  }

  method CollectProject(collector: Collector, project: Project) returns (r: Option<Project>)
    requires collector.Valid()
    modifies collector
    ensures collector.Valid() && old(collector.uses) <= collector.uses && old(collector.assets) <= collector.assets
    ensures r.Some? <==> ProjectExportable(collector.env, project)
    ensures r.Some? ==> collector.uses == UsedBySteps(old(collector.uses), project.steps, project.name)
    ensures r.Some? ==> ProjectBound(project, r.value, collector.uses, collector.assets, collector.internal)
  {
    var steps: seq<Step> := [];
    for n := 0 to |project.steps|
      invariant collector.Valid() && old(collector.uses) <= collector.uses && old(collector.assets) <= collector.assets
      invariant Collected(collector.env, old(collector.uses), project, n, steps, collector.uses, collector.assets,
                          collector.internal)
    {
      var next := CollectNext(collector, old(collector.uses), project, n, steps);
      if next.None? {
        return None;
      }
      steps := next.value;
    }
    assert project.steps[..|project.steps|] == project.steps;
    return Some(project.(steps := steps));
  }

  ghost predicate ProjectBound(project: Project, bound: Project, uses: seq<Use>, assets: seq<Asset>, internal: bool) {
    bound == project.(steps := bound.steps) && AllBound(project.steps, bound.steps, uses, assets, internal)
  }

  /** Every project of the result is bound, project by project. */
  ghost predicate DocumentBound(document: seq<Project>, bound: seq<Project>, uses: seq<Use>, assets: seq<Asset>,
                                internal: bool)
  {
    |bound| == |document| && forall p :: 0 <= p < |document| ==>
      ProjectBound(document[p], bound[p], uses, assets, internal)
  }

  ghost predicate AllExportable(env: Environment, document: seq<Project>) {
    forall p :: 0 <= p < |document| ==> ProjectExportable(env, document[p])
  }

  predicate ProjectExportable(env: Environment, project: Project) {
    forall i :: 0 <= i < |project.steps| ==> Exportable(env, project.steps[i])
  }

  /** `collect_export_payload`: it fails exactly when some step names no file; otherwise the
    archive is a bundle of the named files, each once, and every step is bound to its own. */
  method CollectPayload(env: Environment, internal: bool, document: seq<Project>)
    returns (r: Option<(seq<Project>, seq<Asset>, map<string, Bytes>)>)
    requires env.WellFormed()
    ensures r.Some? <==> AllExportable(env, document)
    ensures r.Some? ==> IsBundle(env, UsedBy(document), r.value.1, r.value.2)
    ensures r.Some? ==> DocumentBound(document, r.value.0, UsedBy(document), r.value.1, internal)
  {
    var collector := new Collector(env, internal);
    var bound: seq<Project> := [];
    for n := 0 to |document|
      invariant collector.Valid() && collector.uses == UsedBy(document[..n]) && AllExportable(env, document[..n])
      invariant DocumentBound(document[..n], bound, collector.uses, collector.assets, internal)
    {
      ghost var (uses, assets) := (collector.uses, collector.assets);
      var project := CollectProject(collector, document[n]);
      assert document[..n + 1] == document[..n] + [document[n]];
      if project.None? {
        return None;
      }
      DocumentBoundMore(document, n, bound, uses, assets, project.value, collector.uses, collector.assets, internal);
      bound := bound + [project.value];
    }
    assert document[..|document|] == document;
    return Some((bound, collector.assets, collector.archive));
  }

  lemma DocumentBoundMore(document: seq<Project>, n: nat, bound: seq<Project>, uses: seq<Use>, assets: seq<Asset>,
                          next: Project, uses': seq<Use>, assets': seq<Asset>, internal: bool)
    requires n < |document| && DocumentBound(document[..n], bound, uses, assets, internal)
    requires uses <= uses' && assets <= assets'
    requires ProjectBound(document[n], next, uses', assets', internal)
    ensures DocumentBound(document[..n + 1], bound + [next], uses', assets', internal)
  {
    forall p | 0 <= p < n ensures ProjectBound(document[p], bound[p], uses', assets', internal) {
      assert ProjectBound(document[..n][p], bound[p], uses, assets, internal);
      BoundLater(document[p].steps, bound[p].steps, uses, assets, uses', assets', internal);
    }
  }
}
