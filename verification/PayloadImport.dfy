/** Importing the payload of a bundle (app/services/config_portability.py): the checks on its assets,
  the binding of its steps, and the round trip from an export.

  Paths are in the form that path objects print: no empty or "." components. */
module PayloadImport {
  import opened Options
  import opened Strings
  import opened Paths
  import opened Bundles

  /** Where the import writes an asset. */
  function Destination(asset: Asset, prefix: Option<string>): string {
    if prefix.Some? then Join(prefix.value, Name(asset.suggestedPath)) else asset.suggestedPath
  }

  // ----- Checking the assets -------------------------------------------------------------------

  /** The checks of one asset: reference, archive member, digest, size, path. */
  predicate AssetAccepted(asset: Asset, archive: map<string, Bytes>, digest: Bytes -> string) {
    && Strip(asset.ref) != "" && Strip(asset.path) in archive
    && digest(archive[Strip(asset.path)]) == asset.sha256 && |archive[Strip(asset.path)]| == asset.size
    && SafePath(asset.suggestedPath)
  }

  /** All assets pass, with distinct references and distinct destinations. */
  ghost predicate AssetsAccepted(assets: seq<Asset>, archive: map<string, Bytes>, prefix: Option<string>,
                                 digest: Bytes -> string)
  {
    && AllAccepted(assets, archive, digest)
    && DistinctRefs(assets) && DistinctDestinations(assets, prefix)
  }

  ghost predicate AllAccepted(assets: seq<Asset>, archive: map<string, Bytes>, digest: Bytes -> string) {
    forall n :: 0 <= n < |assets| ==> AssetAccepted(assets[n], archive, digest)
  }

  ghost predicate DistinctRefs(assets: seq<Asset>) {
    forall m, n :: 0 <= m < n < |assets| ==> Strip(assets[m].ref) != Strip(assets[n].ref)
  }

  ghost predicate DistinctDestinations(assets: seq<Asset>, prefix: Option<string>) {
    forall m, n :: 0 <= m < n < |assets| ==> Destination(assets[m], prefix) != Destination(assets[n], prefix)
  }

  /** Assets are accepted exactly when each has a reference and an archive member with its digest and
    size, its path is relative and without "..", and no two share a reference or a destination. */
  lemma AssetsAcceptedIff(assets: seq<Asset>, archive: map<string, Bytes>, prefix: Option<string>,
                          digest: Bytes -> string)
    ensures AssetsAccepted(assets, archive, prefix, digest) <==>
      && (forall n :: 0 <= n < |assets| ==>
            && Strip(assets[n].ref) != "" && Strip(assets[n].path) in archive
            && digest(archive[Strip(assets[n].path)]) == assets[n].sha256
            && |archive[Strip(assets[n].path)]| == assets[n].size)
      && (forall n :: 0 <= n < |assets| ==> Confined(assets[n].suggestedPath))
      && (forall m, n :: 0 <= m < n < |assets| ==> Strip(assets[m].ref) != Strip(assets[n].ref))
      && (forall m, n :: 0 <= m < n < |assets| ==>
            Destination(assets[m], prefix) != Destination(assets[n], prefix))
  {
    forall n | 0 <= n < |assets| {
      SafePathIff(assets[n].suggestedPath);
    }
  }

  /** The writes of accepted assets. */
  function Writes(assets: seq<Asset>, archive: map<string, Bytes>, prefix: Option<string>): seq<(string, Bytes)>
    requires forall n :: 0 <= n < |assets| ==> Strip(assets[n].path) in archive
  {
    seq(|assets|, n requires 0 <= n < |assets| => (Destination(assets[n], prefix), archive[Strip(assets[n].path)]))
  }

  /** `by_ref`: each reference with the destination of its asset. */
  ghost predicate MapsRefs(assets: seq<Asset>, byRef: map<string, string>, prefix: Option<string>) {
    && (forall n :: 0 <= n < |assets| ==> MapsRef(assets[n], byRef, Destination(assets[n], prefix)))
    && (forall ref :: ref in byRef ==> HasRef(assets, ref))
  }

  ghost predicate MapsRef(asset: Asset, byRef: map<string, string>, destination: string) {
    Strip(asset.ref) in byRef && byRef[Strip(asset.ref)] == destination
  }

  ghost predicate HasRef(assets: seq<Asset>, ref: string) {
    exists n :: 0 <= n < |assets| && Strip(assets[n].ref) == ref
  }

  lemma MapsMore(assets: seq<Asset>, asset: Asset, byRef: map<string, string>, prefix: Option<string>)
    requires MapsRefs(assets, byRef, prefix) && Strip(asset.ref) !in byRef
    ensures MapsRefs(assets + [asset], byRef[Strip(asset.ref) := Destination(asset, prefix)], prefix)
  {
    var (more, after) := (assets + [asset], byRef[Strip(asset.ref) := Destination(asset, prefix)]);
    forall ref | ref in after ensures HasRef(more, ref) {
      if ref == Strip(asset.ref) {
        assert more[|assets|] == asset;
      } else {
        assert HasRef(assets, ref);
        var k :| 0 <= k < |assets| && Strip(assets[k].ref) == ref;
        assert more[k] == assets[k];
      }
    }
    forall k | 0 <= k < |more| ensures MapsRef(more[k], after, Destination(more[k], prefix)) {
      assert k < |assets| ==> MapsRef(assets[k], byRef, Destination(assets[k], prefix));
    }
  }

  /** The loop over the assets of `prepare_payload_import`. */
  method CheckAssets(assets: seq<Asset>, archive: map<string, Bytes>, prefix: Option<string>, digest: Bytes -> string)
    returns (r: Option<(map<string, string>, seq<(string, Bytes)>)>)
    ensures r.Some? <==> AssetsAccepted(assets, archive, prefix, digest)
    ensures r.Some? ==> r.value.1 == Writes(assets, archive, prefix)
    ensures r.Some? ==> MapsRefs(assets, r.value.0, prefix)
  {
    var byRef: map<string, string> := map[];
    var writes: seq<(string, Bytes)> := [];
    for n := 0 to |assets|
      invariant Checked(assets[..n], byRef, writes, archive, prefix, digest)
    {
      var next := CheckAsset(assets[..n], assets[n], byRef, writes, archive, prefix, digest);
      assert assets[..n] + [assets[n]] == assets[..n + 1];
      if next.None? {
        AcceptedPrefix(assets, n + 1, archive, prefix, digest);
        return None;
      }
      byRef, writes := next.value.0, next.value.1;
    }
    assert assets[..|assets|] == assets;
    return Some((byRef, writes));
  }

  lemma AcceptedPrefix(assets: seq<Asset>, n: nat, archive: map<string, Bytes>, prefix: Option<string>,
                       digest: Bytes -> string)
    requires n <= |assets|
    ensures AssetsAccepted(assets, archive, prefix, digest) ==> AssetsAccepted(assets[..n], archive, prefix, digest)
  {
  }

  /** The assets seen so far are accepted, and recorded in the two local variables. */
  ghost predicate Checked(assets: seq<Asset>, byRef: map<string, string>, writes: seq<(string, Bytes)>,
                          archive: map<string, Bytes>, prefix: Option<string>, digest: Bytes -> string) {
    && AssetsAccepted(assets, archive, prefix, digest)
    && writes == Writes(assets, archive, prefix) && MapsRefs(assets, byRef, prefix)
  }

  method CheckAsset(ghost before: seq<Asset>, asset: Asset, byRef: map<string, string>, writes: seq<(string, Bytes)>,
                    archive: map<string, Bytes>, prefix: Option<string>, digest: Bytes -> string)
    returns (r: Option<(map<string, string>, seq<(string, Bytes)>)>)
    requires Checked(before, byRef, writes, archive, prefix, digest)
    ensures r.None? ==> !AssetsAccepted(before + [asset], archive, prefix, digest)
    ensures r.Some? ==> Checked(before + [asset], r.value.0, r.value.1, archive, prefix, digest)
  {
    var ref := Strip(asset.ref);
    var destination := Destination(asset, prefix);
    var taken := IsTaken(writes, destination);
    RefMapped(before, byRef, prefix, ref);
    WrittenIff(before, writes, archive, prefix, destination);
    AcceptedMore(before, asset, archive, prefix, digest);
    if ref in byRef || !AssetAccepted(asset, archive, digest) || taken {
      return None;
    }
    MapsMore(before, asset, byRef, prefix);
    WritesMore(before, asset, archive, prefix);
    return Some((byRef[ref := destination], writes + [(destination, archive[Strip(asset.path)])]));
  }

  ghost predicate IsWritten(writes: seq<(string, Bytes)>, destination: string) {
    exists k :: 0 <= k < |writes| && writes[k].0 == destination
  }

  ghost predicate HasDestination(assets: seq<Asset>, prefix: Option<string>, destination: string) {
    exists k :: 0 <= k < |assets| && Destination(assets[k], prefix) == destination
  }

  lemma WrittenIff(assets: seq<Asset>, writes: seq<(string, Bytes)>, archive: map<string, Bytes>,
                   prefix: Option<string>, destination: string)
    requires forall n :: 0 <= n < |assets| ==> Strip(assets[n].path) in archive
    requires writes == Writes(assets, archive, prefix)
    ensures IsWritten(writes, destination) <==> HasDestination(assets, prefix, destination)
  {
    if k :| 0 <= k < |writes| && writes[k].0 == destination {
      assert Destination(assets[k], prefix) == destination;
    }
    if k :| 0 <= k < |assets| && Destination(assets[k], prefix) == destination {
      assert writes[k].0 == destination;
    }
  }

  method IsTaken(writes: seq<(string, Bytes)>, destination: string) returns (taken: bool)
    ensures taken <==> IsWritten(writes, destination)
  {
    for k := 0 to |writes|
      invariant forall i :: 0 <= i < k ==> writes[i].0 != destination
    {
      if writes[k].0 == destination {
        return true;
      }
    }
    return false;
  }

  lemma AcceptedMore(assets: seq<Asset>, asset: Asset, archive: map<string, Bytes>, prefix: Option<string>,
                     digest: Bytes -> string)
    requires AssetsAccepted(assets, archive, prefix, digest)
    ensures AssetsAccepted(assets + [asset], archive, prefix, digest) <==>
      AssetAccepted(asset, archive, digest) && !HasRef(assets, Strip(asset.ref))
        && !HasDestination(assets, prefix, Destination(asset, prefix))
  {
    DistinctRefsMore(assets, asset);
    DistinctDestinationsMore(assets, asset, prefix);
    AllAcceptedMore(assets, asset, archive, digest);
  }

  lemma AllAcceptedMore(assets: seq<Asset>, asset: Asset, archive: map<string, Bytes>, digest: Bytes -> string)
    ensures AllAccepted(assets + [asset], archive, digest) <==>
      AllAccepted(assets, archive, digest) && AssetAccepted(asset, archive, digest)
  {
    var more := assets + [asset];
    assert forall n :: 0 <= n < |assets| ==> more[n] == assets[n];
    assert more[|assets|] == asset;
  }

  lemma WritesMore(assets: seq<Asset>, asset: Asset, archive: map<string, Bytes>, prefix: Option<string>)
    requires (forall n :: 0 <= n < |assets| ==> Strip(assets[n].path) in archive) && Strip(asset.path) in archive
    ensures Writes(assets + [asset], archive, prefix)
      == Writes(assets, archive, prefix) + [(Destination(asset, prefix), archive[Strip(asset.path)])]
  {
  }

  lemma DistinctRefsMore(assets: seq<Asset>, asset: Asset)
    ensures DistinctRefs(assets + [asset]) <==> DistinctRefs(assets) && !HasRef(assets, Strip(asset.ref))
  {
    var more := assets + [asset];
    assert forall n :: 0 <= n < |assets| ==> more[n] == assets[n];
    assert more[|assets|] == asset;
  }

  lemma DistinctDestinationsMore(assets: seq<Asset>, asset: Asset, prefix: Option<string>)
    ensures DistinctDestinations(assets + [asset], prefix) <==>
      DistinctDestinations(assets, prefix) && !HasDestination(assets, prefix, Destination(asset, prefix))
  {
    var more := assets + [asset];
    assert forall n :: 0 <= n < |assets| ==> more[n] == assets[n];
    assert more[|assets|] == asset;
  }

  // ----- Binding the steps ---------------------------------------------------------------------

  /** The payload of a step is none, or empty, or the reference of an asset. */
  ghost predicate Known(step: Step, assets: seq<Asset>) {
    step.payload.Some? && step.payload.value != "" ==> HasRef(assets, step.payload.value)
  }

  /** A step with a payload now runs the file of that asset in the destination repository;
    any other step only loses its empty payload. */
  ghost predicate Rebound(step: Step, after: Step, assets: seq<Asset>, repository: string, prefix: Option<string>) {
    if step.payload.None? || step.payload.value == "" then after == step.(payload := None)
    else exists n ::
      && 0 <= n < |assets| && Strip(assets[n].ref) == step.payload.value
      && after == Bind(step, Destination(assets[n], prefix), repository)
  }

  function Bind(step: Step, destination: string, repository: string): Step {
    step.(payload := None, repository := Some(repository), playbook := destination)
  }

  ghost predicate AllRebound(steps: seq<Step>, after: seq<Step>, assets: seq<Asset>, repository: string,
                             prefix: Option<string>)
  {
    |after| == |steps| && forall i :: 0 <= i < |steps| ==> Rebound(steps[i], after[i], assets, repository, prefix)
  }

  ghost predicate ProjectRebound(project: Project, after: Project, assets: seq<Asset>, repository: string,
                                 prefix: Option<string>)
  {
    && after.name == project.name && after.repository == Some(repository)
    && AllRebound(project.steps, after.steps, assets, repository, prefix)
  }

  ghost predicate AllKnown(project: Project, assets: seq<Asset>) {
    forall i :: 0 <= i < |project.steps| ==> Known(project.steps[i], assets)
  }

  lemma RefMapped(assets: seq<Asset>, byRef: map<string, string>, prefix: Option<string>, ref: string)
    requires MapsRefs(assets, byRef, prefix)
    ensures ref in byRef <==> HasRef(assets, ref)
  {
    forall n | 0 <= n < |assets| && Strip(assets[n].ref) == ref ensures ref in byRef {
      assert MapsRef(assets[n], byRef, Destination(assets[n], prefix));
    }
  }

  method BindStep(step: Step, ghost assets: seq<Asset>, byRef: map<string, string>, repository: string,
                  ghost prefix: Option<string>)
    returns (r: Option<Step>)
    requires MapsRefs(assets, byRef, prefix)
    ensures r.Some? <==> Known(step, assets)
    ensures r.Some? <==> step.payload == None || step.payload == Some("") || exists n ::
      0 <= n < |assets| && Strip(assets[n].ref) == step.payload.value
    ensures r.Some? ==> Rebound(step, r.value, assets, repository, prefix)
  {
    if step.payload.None? || step.payload.value == "" {
      return Some(step.(payload := None));
    }
    var ref := step.payload.value;
    RefMapped(assets, byRef, prefix, ref);
    if ref !in byRef {
      return None;
    }
    assert HasRef(assets, ref);
    ghost var n :| 0 <= n < |assets| && Strip(assets[n].ref) == ref;
    assert MapsRef(assets[n], byRef, Destination(assets[n], prefix));
    return Some(Bind(step, byRef[ref], repository));
  }

  lemma ReboundMore(steps: seq<Step>, n: nat, after: seq<Step>, next: Step, assets: seq<Asset>, repository: string,
                    prefix: Option<string>)
    requires n < |steps| && AllRebound(steps[..n], after, assets, repository, prefix)
    requires Rebound(steps[n], next, assets, repository, prefix)
    ensures AllRebound(steps[..n + 1], after + [next], assets, repository, prefix)
  {
    var more := steps[..n + 1];
    forall i | 0 <= i < |more| ensures Rebound(more[i], (after + [next])[i], assets, repository, prefix) {
      assert i < n ==> Rebound(steps[..n][i], after[i], assets, repository, prefix);
    }
  }

  method BindProject(project: Project, ghost assets: seq<Asset>, byRef: map<string, string>, repository: string,
                     ghost prefix: Option<string>)
    returns (r: Option<Project>)
    requires MapsRefs(assets, byRef, prefix)
    ensures r.Some? <==> AllKnown(project, assets)
    ensures r.Some? ==> ProjectRebound(project, r.value, assets, repository, prefix)
  {
    var steps: seq<Step> := [];
    for i := 0 to |project.steps|
      invariant AllRebound(project.steps[..i], steps, assets, repository, prefix)
      invariant forall k :: 0 <= k < i ==> Known(project.steps[k], assets)
    {
      var step := BindStep(project.steps[i], assets, byRef, repository, prefix);
      if step.None? {
        return None;
      }
      ReboundMore(project.steps, i, steps, step.value, assets, repository, prefix);
      steps := steps + [step.value];
    }
    assert project.steps[..|project.steps|] == project.steps;
    return Some(project.(repository := Some(repository), steps := steps));
  }

  ghost predicate DocumentRebound(document: seq<Project>, after: seq<Project>, assets: seq<Asset>, repository: string,
                                  prefix: Option<string>)
  {
    |after| == |document| && forall p :: 0 <= p < |document| ==>
      ProjectRebound(document[p], after[p], assets, repository, prefix)
  }

  /** What the import demands of a document with a payload. */
  ghost predicate Importable(document: seq<Project>, assets: seq<Asset>, archive: map<string, Bytes>,
                             repository: Option<string>,
                             prefix: Option<string>, digest: Bytes -> string) {
    && repository.Some? && (prefix.Some? ==> SafePath(prefix.value)) && AssetsAccepted(assets, archive, prefix, digest)
    && forall p :: 0 <= p < |document| ==> AllKnown(document[p], assets)
  }

  /** Nothing is written outside the directory of the repository, with and without a prefix. */
  lemma WriteStaysInside(assets: seq<Asset>, archive: map<string, Bytes>, prefix: Option<string>,
                         digest: Bytes -> string, n: nat)
    requires AllAccepted(assets, archive, digest) && (prefix.Some? ==> SafePath(prefix.value)) && n < |assets|
    ensures StaysInside(Writes(assets, archive, prefix)[n].0)
  {
    assert AssetAccepted(assets[n], archive, digest);
    if prefix.Some? {
      JoinIsSafe(prefix.value, assets[n].suggestedPath);
    }
    SafePathStaysInside(Destination(assets[n], prefix));
  }

  /** One write for each asset, in their order: inside the repository, under the prefix if there is
    one, with the content that has the digest and the size of the asset. */
  ghost predicate WritesVerified(assets: seq<Asset>, writes: seq<(string, Bytes)>, archive: map<string, Bytes>,
                                 prefix: Option<string>, digest: Bytes -> string)
  {
    && |writes| == |assets| && forall n :: 0 <= n < |assets| ==>
      WriteVerified(assets[n], writes[n], archive, prefix, digest)
  }

  ghost predicate WriteVerified(asset: Asset, write: (string, Bytes), archive: map<string, Bytes>,
                                prefix: Option<string>, digest: Bytes -> string)
  {
    && StaysInside(write.0)
    && (prefix.None? ==> write.0 == asset.suggestedPath)
    && (prefix.Some? ==> PlacedUnder(prefix.value, asset.suggestedPath, write.0))
    && digest(write.1) == asset.sha256 && |write.1| == asset.size
    && Strip(asset.path) in archive && archive[Strip(asset.path)] == write.1
  }

  /** The last component of the path, placed in the directory. */
  ghost predicate PlacedUnder(directory: string, path: string, destination: string) {
    forall parts :: AreComponents(parts) && Joined(parts) == path ==>
      var file := parts[|parts| - 1];
      destination == if directory == "" then file else if file == "" then directory else directory + "/" + file
  }

  lemma JoinPlacesUnder(directory: string, path: string)
    ensures PlacedUnder(directory, path, Join(directory, Name(path)))
  {
    forall parts | AreComponents(parts) && Joined(parts) == path ensures Name(path) == parts[|parts| - 1] {
      NameIsLast(parts);
    }
  }

  lemma WritesAreVerified(assets: seq<Asset>, archive: map<string, Bytes>, prefix: Option<string>,
                          digest: Bytes -> string)
    requires AllAccepted(assets, archive, digest) && (prefix.Some? ==> SafePath(prefix.value))
    ensures WritesVerified(assets, Writes(assets, archive, prefix), archive, prefix, digest)
  {
    var writes := Writes(assets, archive, prefix);
    forall n | 0 <= n < |assets| ensures WriteVerified(assets[n], writes[n], archive, prefix, digest) {
      WriteStaysInside(assets, archive, prefix, digest, n);
      if prefix.Some? {
        JoinPlacesUnder(prefix.value, assets[n].suggestedPath);
      }
      assert AssetAccepted(assets[n], archive, digest);
    }
  }

  /** `prepare_payload_import`: the new document and the files to write. */
  method PrepareImport(document: seq<Project>, assets: seq<Asset>, archive: map<string, Bytes>,
                       repository: Option<string>,
                       prefix: Option<string>, digest: Bytes -> string)
    returns (r: Option<(seq<Project>, seq<(string, Bytes)>)>)
    ensures assets == [] ==> r == Some((document, []))
    ensures assets != [] ==> (r.Some? <==> Importable(document, assets, archive, repository, prefix, digest))
    ensures assets != [] && r.Some? ==> r.value.1 == Writes(assets, archive, prefix)
    ensures assets != [] && r.Some? ==> DocumentRebound(document, r.value.0, assets, repository.value, prefix)
    ensures assets != [] && r.Some? ==> WritesVerified(assets, r.value.1, archive, prefix, digest)
  {
    if assets == [] {
      return Some((document, []));
    }
    if repository.None? || (prefix.Some? && !SafePath(prefix.value)) {
      return None;
    }
    var checks := CheckAssets(assets, archive, prefix, digest);
    if checks.None? {
      return None;
    }
    var (byRef, writes) := checks.value;
    var after := BindDocument(document, assets, byRef, repository.value, prefix);
    if after.None? {
      return None;
    }
    WritesAreVerified(assets, archive, prefix, digest);
    return Some((after.value, writes));
  }

  method BindDocument(document: seq<Project>, ghost assets: seq<Asset>, byRef: map<string, string>, repository: string,
                      ghost prefix: Option<string>)
    returns (r: Option<seq<Project>>)
    requires MapsRefs(assets, byRef, prefix)
    ensures r.Some? <==> forall p :: 0 <= p < |document| ==> AllKnown(document[p], assets)
    ensures r.Some? ==> DocumentRebound(document, r.value, assets, repository, prefix)
  {
    var after: seq<Project> := [];
    for p := 0 to |document|
      invariant DocumentRebound(document[..p], after, assets, repository, prefix)
      invariant forall k :: 0 <= k < p ==> AllKnown(document[k], assets)
    {
      var project := BindProject(document[p], assets, byRef, repository, prefix);
      if project.None? {
        return None;
      }
      after := after + [project.value];
    }
    assert document[..|document|] == document;
    return Some(after);
  }

  /** The asset with this reference is written to this path. */
  ghost predicate WritesFor(assets: seq<Asset>, writes: seq<(string, Bytes)>, ref: string, path: string) {
    exists n :: 0 <= n < |assets| && n < |writes| && Strip(assets[n].ref) == ref && writes[n].0 == path
  }

  /** An imported step with a payload runs, in the destination repository, what is written for the
    asset it names; without one it stays as it was. Nothing else of it changes. */
  lemma ImportedStepRuns(step: Step, after: Step, assets: seq<Asset>, archive: map<string, Bytes>, repository: string,
                         prefix: Option<string>)
    requires forall n :: 0 <= n < |assets| ==> Strip(assets[n].path) in archive
    requires Rebound(step, after, assets, repository, prefix)
    ensures after.repo == step.repo && after.path == step.path && after.script == step.script && after.payload == None
    ensures step.payload == None || step.payload == Some("") ==>
      after.playbook == step.playbook && after.repository == step.repository
    ensures step.payload != None && step.payload != Some("") ==> after.repository == Some(repository)
    ensures step.payload != None && step.payload != Some("") ==>
      WritesFor(assets, Writes(assets, archive, prefix), step.payload.value, after.playbook)
  {
  }

  // ----- Round trip ----------------------------------------------------------------------------

  /** The suffix survives stripping. */
  predicate EndsVisibly(suffix: string) {
    suffix != "" ==> !IsSpace(suffix[|suffix| - 1])
  }

  /** No packaged script has a suffix that ends with a blank. */
  ghost predicate VisibleSuffixes(env: Environment, uses: seq<Use>) {
    forall n :: 0 <= n < |uses| && uses[n].script ==> EndsVisibly(env.suffix(uses[n].key))
  }

  /** Stripping keeps what comes before a visible character, when the first one is visible. */
  lemma {:induction false} StripKeeps(s: string, start: string)
    requires start != "" && start <= s && !IsSpace(start[0]) && !IsSpace(start[|start| - 1])
    ensures start <= Strip(s) <= s
    decreases |s|
  {
    if |s| > |start| && IsSpace(s[|s| - 1]) {
      StripKeeps(s[..|s| - 1], start);
    }
  }

  /** The start of a member's path, up to the dot. */
  function MemberStart(n: nat, script: bool): string {
    MemberPath(Ref(n) + ".", script)
  }

  lemma MemberStarts(env: Environment, n: nat, key: Key, script: bool)
    requires env.WellFormed()
    ensures MemberStart(n, script) <= MemberPath(FileName(env, n, key, script), script)
    ensures MemberStart(n, script) <= Strip(MemberPath(FileName(env, n, key, script), script))
  {
    FileNameStart(env, n, key, script);
    var (file, path, start) :=
      (FileName(env, n, key, script), MemberPath(FileName(env, n, key, script), script), MemberStart(n, script));
    assert file == (Ref(n) + ".") + file[|Ref(n)| + 1..];
    assert path == start + file[|Ref(n)| + 1..];
    StripKeeps(path, start);
  }

  lemma StartsDiffer(m: nat, s: bool, n: nat, t: bool, path: string)
    requires MemberStart(m, s) <= path && MemberStart(n, t) <= path
    ensures m == n
  {
    assert path[9] == MemberStart(m, s)[9] == MemberStart(n, t)[9];
    assert s == t;
    var skip := |"payload/" + (if s then "scripts" else "playbooks") + "/"|;
    assert MemberStart(m, s)[skip..] == Ref(m) + "." && MemberStart(n, t)[skip..] == Ref(n) + ".";
    assert MemberStart(m, s) == path[..|MemberStart(m, s)|] && MemberStart(n, t) == path[..|MemberStart(n, t)|];
    NamedOnce(m, n, path[skip..]);
  }

  /** The import finds an exported member exactly when stripping leaves its path alone. */
  lemma MemberFoundIff(env: Environment, uses: seq<Use>, assets: seq<Asset>, archive: map<string, Bytes>, n: nat)
    requires env.WellFormed() && IsBundle(env, uses, assets, archive) && n < |assets|
    ensures Strip(assets[n].path) in archive <==> Strip(assets[n].path) == assets[n].path
  {
    if Strip(assets[n].path) in archive {
      assert HasMember(assets, Strip(assets[n].path));
      var m :| 0 <= m < |assets| && assets[m].path == Strip(assets[n].path);
      assert IsAsset(env, assets[m], m, uses[m]) && IsAsset(env, assets[n], n, uses[n]);
      MemberStarts(env, m, uses[m].key, uses[m].script);
      MemberStarts(env, n, uses[n].key, uses[n].script);
      StartsDiffer(m, uses[m].script, n, uses[n].script, assets[m].path);
    }
  }

  lemma MemberStrippedIff(env: Environment, n: nat, key: Key, script: bool)
    requires env.WellFormed()
    ensures var path := MemberPath(FileName(env, n, key, script), script);
      Strip(path) == path <==> (script ==> EndsVisibly(env.suffix(key)))
  {
    var path := MemberPath(FileName(env, n, key, script), script);
    var suffix := AssetSuffix(env.suffix(key), script);
    StripIff(path);
    assert path[0] == 'p' && path[|path| - 1] == suffix[|suffix| - 1];
  }

  lemma SuggestedSafe(env: Environment, n: nat, key: Key, script: bool, project: string)
    requires env.WellFormed()
    ensures SafePath(SuggestedPath(env.slug(project), FileName(env, n, key, script)))
  {
    var (slug, suffix) := (env.slug(project), AssetSuffix(env.suffix(key), script));
    var start := "journeyman-imports/" + slug + "/" + Ref(n);
    var path := SuggestedPath(slug, FileName(env, n, key, script));
    RefHasNoDot(n);
    assert path == start + suffix;
    assert forall i :: 0 <= i < |start| ==> start[i] != '.';
    assert forall i :: 0 < i < |suffix| ==> suffix[i] != '.' by {
      assert forall i :: 0 < i < |suffix| ==> suffix[i] == suffix[1..][i - 1];
    }
    assert path[0] == 'j';
  }

  lemma RefStripped(n: nat)
    ensures Strip(Ref(n)) == Ref(n)
  {
    RefHasNoDot(n);
    StripIff(Ref(n));
  }

  lemma JoinDiffers(directory: string, a: string, b: string)
    requires a != b && a != "" && b != ""
    ensures Join(directory, a) != Join(directory, b)
  {
    if directory != "" {
      assert Join(directory, a)[|directory| + 1..] == a && Join(directory, b)[|directory| + 1..] == b;
    }
  }

  /** References and destinations of a bundle are distinct, with and without a prefix. */
  lemma NoCollisions(env: Environment, uses: seq<Use>, assets: seq<Asset>, archive: map<string, Bytes>,
                     prefix: Option<string>, m: nat, n: nat)
    requires env.WellFormed() && IsBundle(env, uses, assets, archive) && m < n < |assets|
    ensures Strip(assets[m].ref) != Strip(assets[n].ref)
    ensures Destination(assets[m], prefix) != Destination(assets[n], prefix)
  {
    var (u, v) := (uses[m], uses[n]);
    assert IsAsset(env, assets[m], m, u) && IsAsset(env, assets[n], n, v);
    RefStripped(m);
    RefStripped(n);
    if Ref(m) == Ref(n) {
      RefInjective(m, n);
    }
    MemberNames(env, m, u.key, u.script, u.project);
    MemberNames(env, n, v.key, v.script, v.project);
    NamesDiffer(env, m, u.key, u.script, n, v.key, v.script);
    if prefix.Some? {
      JoinDiffers(prefix.value, Name(assets[m].suggestedPath), Name(assets[n].suggestedPath));
    }
  }

  lemma ExportedAssetAcceptedIff(env: Environment, uses: seq<Use>, assets: seq<Asset>, archive: map<string, Bytes>,
                                 n: nat)
    requires env.WellFormed() && IsBundle(env, uses, assets, archive) && n < |assets|
    ensures AssetAccepted(assets[n], archive, env.digest) <==> (uses[n].script ==> EndsVisibly(env.suffix(uses[n].key)))
  {
    var use := uses[n];
    assert IsAsset(env, assets[n], n, use);
    MemberFoundIff(env, uses, assets, archive, n);
    MemberStrippedIff(env, n, use.key, use.script);
    RefStripped(n);
    SuggestedSafe(env, n, use.key, use.script, use.project);
  }

  /** An exported bundle passes the checks of the import, for every prefix, exactly when no script
    suffix ends with a blank: references and destinations never collide, digests and sizes match. */
  lemma BundleAcceptedIff(env: Environment, uses: seq<Use>, assets: seq<Asset>, archive: map<string, Bytes>,
                          prefix: Option<string>)
    requires env.WellFormed() && IsBundle(env, uses, assets, archive)
    ensures AssetsAccepted(assets, archive, prefix, env.digest) <==> VisibleSuffixes(env, uses)
  {
    forall n | 0 <= n < |assets|
      ensures AssetAccepted(assets[n], archive, env.digest) <==>
        (uses[n].script ==> EndsVisibly(env.suffix(uses[n].key)))
    {
      ExportedAssetAcceptedIff(env, uses, assets, archive, n);
    }
    BundleIsDistinct(env, uses, assets, archive, prefix);
  }

  lemma BundleIsDistinct(env: Environment, uses: seq<Use>, assets: seq<Asset>, archive: map<string, Bytes>,
                         prefix: Option<string>)
    requires env.WellFormed() && IsBundle(env, uses, assets, archive)
    ensures DistinctRefs(assets) && DistinctDestinations(assets, prefix)
  {
    forall m, n | 0 <= m < n < |assets|
      ensures Strip(assets[m].ref) != Strip(assets[n].ref)
      ensures Destination(assets[m], prefix) != Destination(assets[n], prefix)
    {
      NoCollisions(env, uses, assets, archive, prefix, m, n);
    }
  }

  /** A script whose suffix ends with a blank is exported, and the import refuses its bundle. */
  lemma BlankSuffixRefused(repository: nat, project: string, content: Bytes, prefix: Option<string>)
    ensures var key := (repository, "run.sh ");
      var env := Environment(map[key := content], BlankSuffix, PlainSlug, NoDigest);
      var step := Step(Some(repository), "run.sh ", true, "run.sh ", None, None);
      var uses := UsedBy([Project(project, None, [step])]);
      env.WellFormed() && Exportable(env, step)
      && forall assets, archive :: IsBundle(env, uses, assets, archive) ==>
        !AssetsAccepted(assets, archive, prefix, env.digest)
  {
    var key := (repository, "run.sh ");
    var env := Environment(map[key := content], BlankSuffix, PlainSlug, NoDigest);
    var step := Step(Some(repository), "run.sh ", true, "run.sh ", None, None);
    var document := [Project(project, None, [step])];
    var uses := UsedBy(document);
    assert document[..0] == [] && [step][..0] == [];
    assert UsedBy(document[..0]) == [] && UsedBySteps([], [step][..0], project) == [];
    assert UsedBySteps([], [step], project) == [Use(key, true, project)];
    assert uses == [Use(key, true, project)];
    forall assets, archive | IsBundle(env, uses, assets, archive)
      ensures !AssetsAccepted(assets, archive, prefix, env.digest)
    {
      BundleAcceptedIff(env, uses, assets, archive, prefix);
      assert uses[0].script && !EndsVisibly(env.suffix(uses[0].key));
    }
  }

  function BlankSuffix(key: Key): string {
    ".sh "
  }

  function PlainSlug(name: string): string {
    "p"
  }

  function NoDigest(content: Bytes): string {
    ""
  }

  /** An asset without a suggested path is accepted, and written to the directory itself. */
  lemma EmptyPathAccepted(content: Bytes, digest: Bytes -> string)
    ensures var asset := Asset("a", false, "m", "", digest(content), |content|);
      && AssetsAccepted([asset], map["m" := content], None, digest)
      && Writes([asset], map["m" := content], None) == [("", content)]
  {
    StripIff("a");
    StripIff("m");
  }

  /** Every reference of an exported document is known to the import. */
  lemma ExportedKnown(env: Environment, uses: seq<Use>, assets: seq<Asset>, archive: map<string, Bytes>, step: Step,
                      bound: Step, internal: bool)
    requires env.WellFormed() && IsBundle(env, uses, assets, archive) && Bound(step, bound, uses, assets, internal)
    ensures bound.payload.Some? && bound.payload.value != "" && Known(bound, assets)
  {
    var n :| 0 <= n < |uses| && n < |assets| && BoundTo(step, bound, uses[n], assets[n], internal);
    assert IsAsset(env, assets[n], n, uses[n]);
    RefStripped(n);
  }

  /** Something is written to the path, and nothing but this content. */
  ghost predicate WritesOnly(writes: seq<(string, Bytes)>, path: string, content: Bytes) {
    && (exists k :: 0 <= k < |writes| && writes[k] == (path, content))
    && (forall k :: 0 <= k < |writes| && writes[k].0 == path ==> writes[k].1 == content)
  }

  lemma WriteIsOnly(assets: seq<Asset>, archive: map<string, Bytes>, prefix: Option<string>, digest: Bytes -> string,
                    n: nat)
    requires AssetsAccepted(assets, archive, prefix, digest) && n < |assets|
    ensures WritesOnly(Writes(assets, archive, prefix), Destination(assets[n], prefix), archive[Strip(assets[n].path)])
  {
    var writes := Writes(assets, archive, prefix);
    assert writes[n] == (Destination(assets[n], prefix), archive[Strip(assets[n].path)]);
    forall k | 0 <= k < |writes| && writes[k].0 == Destination(assets[n], prefix) ensures k == n {
      assert Destination(assets[k], prefix) == Destination(assets[n], prefix);
    }
  }

  /** The asset a rebound step runs is the one its exported form was bound to. */
  lemma SameAsset(env: Environment, uses: seq<Use>, assets: seq<Asset>, archive: map<string, Bytes>,
                  prefix: Option<string>,
                  step: Step, bound: Step, after: Step, internal: bool, repository: string) returns (n: nat)
    requires env.WellFormed() && IsBundle(env, uses, assets, archive)
    requires Bound(step, bound, uses, assets, internal) && Rebound(bound, after, assets, repository, prefix)
    ensures n < |assets| && uses[n].key == (step.repo.value, step.path)
    ensures after == Bind(bound, Destination(assets[n], prefix), repository)
  {
    ExportedKnown(env, uses, assets, archive, step, bound, internal);
    var m: nat :| m < |uses| && m < |assets| && BoundTo(step, bound, uses[m], assets[m], internal);
    n :| 0 <= n < |assets| && Strip(assets[n].ref) == bound.payload.value
      && after == Bind(bound, Destination(assets[n], prefix), repository);
    assert IsAsset(env, assets[m], m, uses[m]) && IsAsset(env, assets[n], n, uses[n]);
    RefStripped(n);
    RefInjective(m, n);
  }

  ghost predicate StepKept(env: Environment, step: Step, after: Step, writes: seq<(string, Bytes)>,
                           repository: string)
  {
    && Exportable(env, step) && after.repository == Some(repository) && after.payload == None
    && WritesOnly(writes, after.playbook, env.files[(step.repo.value, step.path)])
  }

  /** The file that an imported step runs holds the bytes of the file the step named on export. */
  lemma StepKeepsBytes(env: Environment, uses: seq<Use>, assets: seq<Asset>, archive: map<string, Bytes>,
                       prefix: Option<string>,
                       step: Step, bound: Step, after: Step, internal: bool, repository: string)
    requires env.WellFormed() && IsBundle(env, uses, assets, archive)
    requires AssetsAccepted(assets, archive, prefix, env.digest)
    requires Bound(step, bound, uses, assets, internal) && Rebound(bound, after, assets, repository, prefix)
    ensures StepKept(env, step, after, Writes(assets, archive, prefix), repository)
  {
    var n := SameAsset(env, uses, assets, archive, prefix, step, bound, after, internal, repository);
    ImportedContent(env, uses, assets, archive, prefix, n);
  }

  lemma ImportedContent(env: Environment, uses: seq<Use>, assets: seq<Asset>, archive: map<string, Bytes>,
                        prefix: Option<string>, n: nat)
    requires env.WellFormed() && IsBundle(env, uses, assets, archive)
    requires AssetsAccepted(assets, archive, prefix, env.digest) && n < |assets|
    ensures n < |uses| && uses[n].key in env.files
    ensures WritesOnly(Writes(assets, archive, prefix), Destination(assets[n], prefix), env.files[uses[n].key])
  {
    MemberFoundIff(env, uses, assets, archive, n);
    assert AssetAccepted(assets[n], archive, env.digest) && IsMember(env, uses[n], assets[n], archive);
    WriteIsOnly(assets, archive, prefix, env.digest, n);
  }

  /** Every step runs, in the destination repository, a copy of the file it named. */
  ghost predicate FilesKept(env: Environment, document: seq<Project>, after: seq<Project>, writes: seq<(string, Bytes)>,
                            repository: string)
  {
    && |after| == |document|
    && forall p :: 0 <= p < |document| ==> ProjectKept(env, document[p], after[p], writes, repository)
  }

  ghost predicate ProjectKept(env: Environment, project: Project, after: Project, writes: seq<(string, Bytes)>,
                              repository: string)
  {
    && after.name == project.name && |after.steps| == |project.steps| && after.repository == Some(repository)
    && forall i :: 0 <= i < |project.steps| ==> StepKept(env, project.steps[i], after.steps[i], writes, repository)
  }

  lemma BoundKnown(env: Environment, document: seq<Project>, bound: seq<Project>, uses: seq<Use>, assets: seq<Asset>,
                   archive: map<string, Bytes>,
                   internal: bool)
    requires env.WellFormed() && IsBundle(env, uses, assets, archive)
    requires DocumentBound(document, bound, uses, assets, internal)
    ensures forall p :: 0 <= p < |bound| ==> AllKnown(bound[p], assets)
  {
    forall p, i | 0 <= p < |bound| && 0 <= i < |bound[p].steps| ensures Known(bound[p].steps[i], assets) {
      assert ProjectBound(document[p], bound[p], uses, assets, internal);
      ExportedKnown(env, uses, assets, archive, document[p].steps[i], bound[p].steps[i], internal);
    }
  }

  lemma ImportKeepsFiles(env: Environment, document: seq<Project>, bound: seq<Project>, after: seq<Project>,
                         uses: seq<Use>, assets: seq<Asset>,
                         archive: map<string, Bytes>, prefix: Option<string>, internal: bool, repository: string)
    requires env.WellFormed() && IsBundle(env, uses, assets, archive)
    requires AssetsAccepted(assets, archive, prefix, env.digest)
    requires DocumentBound(document, bound, uses, assets, internal)
    requires DocumentRebound(bound, after, assets, repository, prefix)
    ensures FilesKept(env, document, after, Writes(assets, archive, prefix), repository)
  {
    forall p | 0 <= p < |document|
      ensures ProjectKept(env, document[p], after[p], Writes(assets, archive, prefix), repository)
    {
      assert ProjectBound(document[p], bound[p], uses, assets, internal)
        && ProjectRebound(bound[p], after[p], assets, repository, prefix);
      ProjectKeepsFiles(env, document[p], bound[p], after[p], uses, assets, archive, prefix, internal, repository);
    }
  }

  lemma ProjectKeepsFiles(env: Environment, project: Project, bound: Project, after: Project, uses: seq<Use>,
                          assets: seq<Asset>,
                          archive: map<string, Bytes>, prefix: Option<string>, internal: bool, repository: string)
    requires env.WellFormed() && IsBundle(env, uses, assets, archive)
    requires AssetsAccepted(assets, archive, prefix, env.digest)
    requires ProjectBound(project, bound, uses, assets, internal)
    requires ProjectRebound(bound, after, assets, repository, prefix)
    ensures ProjectKept(env, project, after, Writes(assets, archive, prefix), repository)
  {
    forall i | 0 <= i < |project.steps|
      ensures StepKept(env, project.steps[i], after.steps[i], Writes(assets, archive, prefix), repository)
    {
      StepKeepsBytes(env, uses, assets, archive, prefix, project.steps[i], bound.steps[i], after.steps[i], internal,
                     repository);
    }
  }

  /** Export, then import. The export of exportable steps comes back exactly when the destination
    exists, the prefix is safe and no script suffix ends with a blank; every step then runs a copy
    of the file it named. Without steps to package, nothing is written. */
  method ExportThenImport(env: Environment, internal: bool, document: seq<Project>, repository: Option<string>,
                          prefix: Option<string>)
    returns (exported: bool, r: Option<(seq<Project>, seq<(string, Bytes)>)>)
    requires env.WellFormed()
    ensures exported <==> AllExportable(env, document)
    ensures exported && UsedBy(document) == [] ==> r.Some? && r.value.1 == []
    ensures exported && UsedBy(document) != [] ==>
      (r.Some? <==>
        && repository.Some? && (prefix.Some? ==> SafePath(prefix.value)) && VisibleSuffixes(env, UsedBy(document)))
    ensures exported && UsedBy(document) != [] && r.Some? ==>
      FilesKept(env, document, r.value.0, r.value.1, repository.value)
  {
    var bundle := CollectPayload(env, internal, document);
    if bundle.None? {
      return false, None;
    }
    var (bound, assets, archive) := bundle.value;
    BundleAcceptedIff(env, UsedBy(document), assets, archive, prefix);
    BoundKnown(env, document, bound, UsedBy(document), assets, archive, internal);
    r := PrepareImport(bound, assets, archive, repository, prefix, env.digest);
    if assets != [] && r.Some? {
      ImportKeepsFiles(env, document, bound, r.value.0, UsedBy(document), assets, archive, prefix, internal,
                       repository.value);
    }
    exported := true;
  }
}
