/** When nothing goes wrong, the four registered stages succeed and leave what they promise. */
module BuilderHealthy {
  import opened Wrappers
  import opened BuilderModel
  import opened BuilderLaws

  const STANDARD := [ValidateConfig, PrepareWorkspace, GenerateManifest, Finalize]

  predicate Calm(w: Weather) {
    && !w.configProbeRaises && w.configExists && w.configIsFile && w.configReadable
    && !w.resolveRaises && !w.listingRaises
    && w.mkdirs == (NoFault, NoFault, NoFault, NoFault) && w.manifestFault == NoFault
    && !w.probeRaises && w.provenanceFault == NoFault && w.logFault == NoFault
    && !w.cleanProbeRaises && w.spared.None?
  }

  // Nothing under the root but directories directly in it, and no file in the way of it.
  predicate OnlyDirectories(t: Tree, root: Path) {
    !Blocked(t, root) && forall p :: p in t && root < p ==> t[p].Dir? && |p| == |root| + 1
  }

  lemma ChildNotBlocked(t: Tree, root: Path, name: string)
    requires !Blocked(t, root) && (root + [name] in t ==> t[root + [name]].Dir?)
    ensures !Blocked(t, root + [name])
  {
    var path := root + [name];
    forall i | 0 <= i <= |path| && path[..i] in t
      ensures t[path[..i]].Dir?
    {
      if i <= |root| {
        assert path[..i] == root[..i];
      } else {
        assert path[..i] == path;
      }
    }
  }

  lemma StaysOnlyDirectories(t: Tree, t': Tree, root: Path)
    requires OnlyDirectories(t, root)
    requires forall p :: p in t ==> p in t' && t'[p] == t[p]
    requires forall p :: p in t' && p !in t ==> t'[p] == Dir && |p| <= |root| + 1
    ensures OnlyDirectories(t', root)
  {
    forall i | 0 <= i <= |root| && root[..i] in t'
      ensures t'[root[..i]].Dir?
    {
      assert root[..i] in t ==> t[root[..i]].Dir?;
    }
  }

  lemma CalmMkdir(t: Tree, root: Path, name: string)
    requires OnlyDirectories(t, root)
    ensures var (t', ok) := MakeDirectory(t, root + [name], NoFault); ok && OnlyDirectories(t', root)
  {
    assert root < root + [name];
    ChildNotBlocked(t, root, name);
    MakeDirectoryFacts(t, root, name, NoFault);
    assert forall p: Path :: p <= root + [name] ==> |p| <= |root| + 1;
    StaysOnlyDirectories(t, MakeDirectory(t, root + [name], NoFault).0, root);
  }

  lemma CalmCreate(t: Tree, root: Path, w: Weather)
    requires Calm(w) && OnlyDirectories(t, root) && !Occupied(t, root)
    ensures var (t', r) := CreateWorkspace(t, root, w); r == Success(Layout(root)) && OnlyDirectories(t', root)
  {
    hide MakeDirectory, OnlyDirectories;
    assert root in t ==> t[root].Dir? by { assert root[..|root|] == root; RootIsDirectory(t, root); }
    CalmMkdir(t, root, "artifacts");
    var t0 := MakeDirectory(t, root + ["artifacts"], NoFault).0;
    CalmMkdir(t0, root, "logs");
    var t1 := MakeDirectory(t0, root + ["logs"], NoFault).0;
    CalmMkdir(t1, root, "metadata");
    CalmMkdir(MakeDirectory(t1, root + ["metadata"], NoFault).0, root, "cache");
  }

  lemma RootIsDirectory(t: Tree, root: Path)
    requires OnlyDirectories(t, root)
    ensures root in t ==> t[root].Dir?
  {
    assert root[..|root|] == root;
  }

  // The tree as it may look once the workspace has been created: its directories are not files, and its files
  // are not directories.
  predicate Writable(t: Tree, root: Path) {
    && !Blocked(t, root + ["metadata"]) && !Blocked(t, root + ["logs"])
    && forall dir, name :: dir in {"metadata", "logs"} && name in {"manifest.json", "provenance.json", "build.log"} ==>
         root + [dir] + [name] in t ==> t[root + [dir] + [name]].File?
  }

  lemma CalmWrite(t: Tree, root: Path, dir: string, name: string, content: Content)
    requires Writable(t, root) && dir in {"metadata", "logs"}
              && name in {"manifest.json", "provenance.json", "build.log"}
    ensures var (t', ok) := WriteFile(t, root + [dir], name, content, NoFault);
            ok && Writable(t', root) && t'[root + [dir] + [name]] == File(content)
            && forall p :: p in t && p != root + [dir] + [name] ==> t'[p] == t[p]
  {
    var path := root + [dir] + [name];
    var made := WithAncestors(t, root + [dir], |root + [dir]|);
    assert path !in t ==> path !in made;
    var t' := made[path := File(content)];
    forall d, i | d in {"metadata", "logs"} && 0 <= i <= |root + [d]| && (root + [d])[..i] in t'
      ensures t'[(root + [d])[..i]].Dir?
    {
      assert |(root + [d])[..i]| < |path|;
    }
  }

  lemma CreatedIsWritable(t: Tree, root: Path)
    requires OnlyDirectories(t, root)
    ensures Writable(t, root)
  {
    ChildIsDirectory(t, root, "metadata");
    ChildIsDirectory(t, root, "logs");
    ChildNotBlocked(t, root, "metadata");
    ChildNotBlocked(t, root, "logs");
    forall dir, name | dir in {"metadata", "logs"} && name in {"manifest.json", "provenance.json", "build.log"}
      ensures root + [dir] + [name] !in t
    {
      var p := root + [dir] + [name];
      assert root < p && |p| == |root| + 2;
    }
  }

  lemma ChildIsDirectory(t: Tree, root: Path, name: string)
    requires OnlyDirectories(t, root)
    ensures root + [name] in t ==> t[root + [name]].Dir?
  {
    assert root < root + [name];
  }

  // The state a healthy run has reached after its manifest stage.
  lemma HealthyManifest(s: State, plan: BuildPlan, w: Weather)
    requires Calm(w) && s.workspace == Some(Layout(plan.root)) && OnlyDirectories(s.tree, plan.root)
    ensures var (s', o) := RunManifest(s, plan, w);
            && o == Done(GenerateManifest, [MANIFEST_ARTIFACT]) && s'.workspace == s.workspace
            && s'.artifacts == s.artifacts + [MANIFEST_ARTIFACT] && Writable(s'.tree, plan.root)
            && var path := plan.root + ["metadata"] + ["manifest.json"];
               path in s'.tree && s'.tree[path] == File(Manifest(plan, s.artifacts, s.results))
  {
    hide WriteFile, Writable, OnlyDirectories;
    CreatedIsWritable(s.tree, plan.root);
    var manifest := Manifest(plan, s.artifacts, s.results);
    CalmWrite(s.tree, plan.root, "metadata", "manifest.json", manifest);
    WriteFileFacts(s.tree, plan.root, "metadata", "manifest.json", manifest, NoFault);
  }

  lemma HealthyFinalize(s: State, plan: BuildPlan, w: Weather)
    requires Calm(w) && s.workspace == Some(Layout(plan.root)) && Writable(s.tree, plan.root)
    ensures var (s', o) := RunFinalize(s, plan, w);
            var metadata := w.metadata.(recipePath := plan.configPath);
            && o == Done(Finalize, []) && s'.artifacts == s.artifacts && s'.metadata == Some(metadata)
            && (!plan.keepWorkspace ==> NothingUnder(s'.tree, plan.root))
            && (plan.keepWorkspace ==>
                  && Holds(s'.tree, plan.root + ["metadata"] + ["provenance.json"], Provenance(metadata))
                  && Holds(s'.tree, plan.root + ["logs"] + ["build.log"], BuildLog(s.results, |s.artifacts|))
                  && forall p :: p in s.tree && s.tree[p].File? && s.tree[p].content.Manifest? ==>
                       p in s'.tree && (s'.tree[p] == s.tree[p]
                                        || p == plan.root + ["metadata"] + ["provenance.json"]
                                        || p == plan.root + ["logs"] + ["build.log"]))
  {
    hide WriteFile, Writable, CleanWorkspace;
    var provenance := Provenance(w.metadata.(recipePath := plan.configPath));
    CalmWrite(s.tree, plan.root, "metadata", "provenance.json", provenance);
    WriteFileFacts(s.tree, plan.root, "metadata", "provenance.json", provenance, NoFault);
    var t1 := WriteFile(s.tree, plan.root + ["metadata"], "provenance.json", provenance, NoFault).0;
    var log := BuildLog(s.results, |s.artifacts|);
    CalmWrite(t1, plan.root, "logs", "build.log", log);
    WriteFileFacts(t1, plan.root, "logs", "build.log", log, NoFault);
    var t2 := WriteFile(t1, plan.root + ["logs"], "build.log", log, NoFault).0;
    WriteTextFacts(t1, plan.root + ["logs"], "build.log", log, NoFault);
    assert (plan.root + ["logs"])[..|plan.root|] == plan.root;
    CalmClean(t2, plan.root, w);
    DistinctRecords(plan.root);
  }

  lemma CalmClean(t: Tree, root: Path, w: Weather)
    requires Calm(w) && root in t && t[root] == Dir
    ensures var (t', r) := CleanWorkspace(t, root, w); r == Success(()) && NothingUnder(t', root)
  {
  }

  // How the manifest stage lists its file.
  const RECORDED := Artifact("metadata/manifest.json", "manifest", None, None)

  // What each stage of a healthy run returns.
  function Expected(i: nat): StageResult
    requires i < 4
  {
    StageResult(["validate-config", "prepare-workspace", "generate-manifest", "finalize"][i], true, 0,
                if i == 2 then [RECORDED] else [])
  }

  /** A fresh run of the four stages on a free root with nothing failing appends four successes; afterwards
      nothing is left under the root, or, when the workspace is kept, its three records are on disk: the manifest
      with the first two results, the log with the first three. */
  lemma HealthyRunSucceeds(s: State, plan: BuildPlan, weather: nat -> Weather)
    requires s.workspace.None? && plan.stages == [] && NamesYaml(plan.configPath)
    requires forall i: nat :: i < 4 ==> Calm(weather(i))
    requires OnlyDirectories(s.tree, plan.root) && !Occupied(s.tree, plan.root)
    ensures var end := After(STANDARD, s, plan, weather, 4);
            && end.results == s.results + [Expected(0), Expected(1), Expected(2), Expected(3)]
            && end.artifacts == s.artifacts + [RECORDED]
            && (!plan.keepWorkspace ==> NothingUnder(end.tree, plan.root))
            && (plan.keepWorkspace ==>
                  var metadata := plan.root + ["metadata"];
                  && Holds(end.tree, metadata + ["manifest.json"],
                           Manifest(plan, s.artifacts, s.results + [Expected(0), Expected(1)]))
                  && Holds(end.tree, metadata + ["provenance.json"],
                           Provenance(weather(3).metadata.(recipePath := plan.configPath)))
                  && Holds(end.tree, plan.root + ["logs"] + ["build.log"],
                           BuildLog(s.results + [Expected(0), Expected(1), Expected(2)], |s.artifacts| + 1)))
  {
    hide CreateWorkspace, WriteFile, OnlyDirectories, Occupied, Writable, RunManifest, RunFinalize, NothingUnder, Calm;
    hide NamesYaml;
    assert Calm(weather(0)) && Calm(weather(1)) && Calm(weather(2)) && Calm(weather(3));
    var s1, s2 := After(STANDARD, s, plan, weather, 1), After(STANDARD, s, plan, weather, 2);
    var s3, s4 := After(STANDARD, s, plan, weather, 3), After(STANDARD, s, plan, weather, 4);
    CalmConfig(weather(0));
    CalmConfig(weather(1));
    assert After(STANDARD, s, plan, weather, 0) == s;
    assert s1 == s.(results := s.results + [Expected(0)]);
    CalmCreate(s.tree, plan.root, weather(1));
    assert s2.results == s.results + [Expected(0)] + [Expected(1)] && s2.workspace == Some(Layout(plan.root));
    HealthyManifest(s2, plan, weather(2));
    StageKeepsResults(GenerateManifest, s2, plan, weather(2));
    HealthyFinalize(s3, plan, weather(3));
    StageKeepsResults(Finalize, s3, plan, weather(3));
    StageKeepsPlaced(Finalize, s3, plan, weather(3));
    assert s.results + [Expected(0)] + [Expected(1)] == s.results + [Expected(0), Expected(1)];
    assert s3.results == s.results + [Expected(0), Expected(1), Expected(2)];
    assert s4.results == s.results + [Expected(0), Expected(1), Expected(2), Expected(3)];
    DistinctRecords(plan.root);
  }

  /** The workspace does not survive a failed stage: with the configuration missing and nothing else failing, the
      first result is a failure, and finalize still removes everything under the root. */
  lemma FailedRunLosesWorkspace(s: State, plan: BuildPlan, weather: nat -> Weather)
    requires s.workspace.None? && plan.stages == [] && !plan.keepWorkspace
    requires !weather(0).configProbeRaises && !weather(0).configExists
    requires forall i: nat :: 1 <= i < 4 ==> Calm(weather(i))
    requires OnlyDirectories(s.tree, plan.root) && !Occupied(s.tree, plan.root)
    ensures var end := After(STANDARD, s, plan, weather, 4);
            && end.results == s.results + [StageResult("validate-config", false, 1, []), Expected(1), Expected(2),
                Expected(3)]
            && NothingUnder(end.tree, plan.root)
  {
    hide CreateWorkspace, WriteFile, OnlyDirectories, Occupied, Writable, RunManifest, RunFinalize, NothingUnder, Calm;
    hide NamesYaml;
    assert Calm(weather(1)) && Calm(weather(2)) && Calm(weather(3));
    var s1, s2 := After(STANDARD, s, plan, weather, 1), After(STANDARD, s, plan, weather, 2);
    var s3, s4 := After(STANDARD, s, plan, weather, 3), After(STANDARD, s, plan, weather, 4);
    var failed := StageResult("validate-config", false, 1, []);
    CalmConfig(weather(1));
    assert After(STANDARD, s, plan, weather, 0) == s;
    assert s1 == s.(results := s.results + [failed]);
    CalmCreate(s.tree, plan.root, weather(1));
    assert s2.results == s.results + [failed] + [Expected(1)] && s2.workspace == Some(Layout(plan.root));
    HealthyManifest(s2, plan, weather(2));
    StageKeepsResults(GenerateManifest, s2, plan, weather(2));
    HealthyFinalize(s3, plan, weather(3));
    StageKeepsResults(Finalize, s3, plan, weather(3));
    assert s3.results == s.results + [failed, Expected(1), Expected(2)];
    assert s4.results == s.results + [failed, Expected(1), Expected(2), Expected(3)];
  }

  lemma CalmConfig(w: Weather)
    requires Calm(w)
    ensures !w.configProbeRaises && w.configExists && w.configIsFile && w.configReadable
              && !w.resolveRaises
  {
  }

  lemma DistinctRecords(root: Path)
    ensures root + ["metadata"] + ["manifest.json"] != root + ["metadata"] + ["provenance.json"]
    ensures root + ["metadata"] + ["manifest.json"] != root + ["logs"] + ["build.log"]
    ensures root + ["metadata"] + ["provenance.json"] != root + ["logs"] + ["build.log"]
  {
    assert (root + ["metadata"] + ["manifest.json"])[|root| + 1] == "manifest.json";
    assert (root + ["metadata"] + ["provenance.json"])[|root| + 1] == "provenance.json";
    assert (root + ["logs"] + ["build.log"])[|root| + 1] == "build.log";
    assert "manifest.json"[0] == 'm' && "provenance.json"[0] == 'p' && "build.log"[0] == 'b';
  }
}
