/** What holds over whole pipeline runs: every stage list, selection, failure and exception. */
module BuilderLaws {
  import opened Wrappers
  import opened BuilderModel

  predicate Concrete(stages: seq<Stage>) {
    forall i :: 0 <= i < |stages| ==> !stages[i].Custom?
  }

  // A stage that leaves appending its result to the pipeline, as the four concrete ones do.
  ghost predicate LeavesResultsAlone(stage: Stage) {
    stage.Custom? ==> forall s :: stage.act(s).0.results == s.results
  }

  // ----- accounting -----

  function SelectedCount(stages: seq<Stage>, plan: BuildPlan, n: nat): nat
    requires n <= |stages|
  {
    if n == 0 then 0 else SelectedCount(stages, plan, n - 1) + if Selected(stages[n - 1], plan) then 1 else 0
  }

  function ResultAt(stages: seq<Stage>, s: State, plan: BuildPlan, weather: nat -> Weather, i: nat): StageResult
    requires i < |stages|
  {
    ResultOf(stages[i], RunStage(stages[i], After(stages, s, plan, weather, i), plan, weather(i)).1)
  }

  lemma StageKeepsResults(stage: Stage, s: State, plan: BuildPlan, w: Weather)
    requires LeavesResultsAlone(stage)
    ensures RunStage(stage, s, plan, w).0.results == s.results
  {
    hide CreateWorkspace, WriteFile, CleanWorkspace;
  }

  // The exit code by which a stage reports its own failures.
  function FailureCode(stage: Stage): nat
    requires !stage.Custom?
  {
    match stage
    case ValidateConfig => 1
    case PrepareWorkspace => 10
    case GenerateManifest => 30
    case Finalize => 70
  }

  // A concrete stage's result carries its name, succeeds exactly with exit code 0, and fails with the stage's own
  // code unless the stage raised; then, and only then, the pipeline's code 99 is recorded.
  lemma ConcreteResult(stage: Stage, s: State, plan: BuildPlan, w: Weather)
    requires !stage.Custom?
    ensures var outcome := RunStage(stage, s, plan, w).1;
            var r := ResultOf(stage, outcome);
            && r.stageName == stage.Name() && (r.success <==> r.exitCode == 0)
            && (r.exitCode == 99 <==> outcome.Raised?)
            && (!r.success && r.exitCode != 99 ==> r.exitCode == FailureCode(stage))
            && (outcome.Raised? ==>
                  || (stage.ValidateConfig? && w.configProbeRaises)
                  || (stage.PrepareWorkspace? && w.resolveRaises)
                  || (stage.Finalize? && s.workspace.Some?))
  {
    hide CreateWorkspace, WriteFile, CleanWorkspace;
  }

  /** A run appends exactly one result per selected stage, in registration order, whatever the stages do. */
  lemma {:induction false} Accounting(stages: seq<Stage>, s: State, plan: BuildPlan, weather: nat -> Weather, n: nat)
    requires n <= |stages| && forall i :: 0 <= i < |stages| ==> LeavesResultsAlone(stages[i])
    ensures var results := After(stages, s, plan, weather, n).results;
            && s.results <= results && |results| == |s.results| + SelectedCount(stages, plan, n)
    ensures forall i :: 0 <= i < n && Selected(stages[i], plan) ==>
              SelectedCount(stages, plan, i) < SelectedCount(stages, plan, n)
    ensures forall i :: 0 <= i < n && Selected(stages[i], plan) ==>
              After(stages, s, plan, weather, n).results[|s.results| + SelectedCount(stages, plan, i)]
              == ResultAt(stages, s, plan, weather, i)
  {
    hide RunStage, Selected;
    if n > 0 {
      Accounting(stages, s, plan, weather, n - 1);
      StageKeepsResults(stages[n - 1], After(stages, s, plan, weather, n - 1), plan, weather(n - 1));
    }
  }

  // Every appended result belongs to some selected stage.
  lemma {:induction false} AppendedComesFromStage(stages: seq<Stage>, plan: BuildPlan, n: nat, k: nat) returns (i: nat)
    requires n <= |stages| && k < SelectedCount(stages, plan, n)
    ensures i < n && Selected(stages[i], plan) && SelectedCount(stages, plan, i) == k
  {
    hide Selected;
    if k < SelectedCount(stages, plan, n - 1) {
      i := AppendedComesFromStage(stages, plan, n - 1, k);
    } else {
      i := n - 1;
    }
  }

  // The reported success is that of exactly the newly appended results.
  lemma SuccessMeansAllAppended(stages: seq<Stage>, s: State, plan: BuildPlan, weather: nat -> Weather)
    requires forall i :: 0 <= i < |stages| ==> LeavesResultsAlone(stages[i])
    ensures var results := After(stages, s, plan, weather, |stages|).results;
            && |s.results| <= |results|
            && ((forall i :: 0 <= i < |stages| ==> Succeeds(stages, s, plan, weather, i))
                <==> forall k :: |s.results| <= k < |results| ==> results[k].success)
  {
    hide RunStage, Selected, After, SelectedCount;
    Accounting(stages, s, plan, weather, |stages|);
    var results, base := After(stages, s, plan, weather, |stages|).results, |s.results|;
    if forall i :: 0 <= i < |stages| ==> Succeeds(stages, s, plan, weather, i) {
      forall k | base <= k < |results|
        ensures results[k].success
      {
        var i := AppendedComesFromStage(stages, plan, |stages|, k - base);
        assert Succeeds(stages, s, plan, weather, i);
        assert results[base + SelectedCount(stages, plan, i)] == ResultAt(stages, s, plan, weather, i);
      }
    }
    if forall k :: base <= k < |results| ==> results[k].success {
      forall i | 0 <= i < |stages|
        ensures Succeeds(stages, s, plan, weather, i)
      {
        if Selected(stages[i], plan) {
          assert results[base + SelectedCount(stages, plan, i)] == ResultAt(stages, s, plan, weather, i);
        }
      }
    }
  }

  // ----- the directory tree -----

  // Nothing disappears.
  predicate Grows(t: Tree, t': Tree) {
    t.Keys <= t'.Keys
  }

  predicate NothingUnder(t: Tree, root: Path) {
    forall p :: p in t ==> !(root <= p)
  }

  // Outside the root nothing changes, except that missing ancestors of the root appear as directories.
  ghost predicate ContainedIn(t: Tree, t': Tree, root: Path) {
    && (forall p :: p in t && !(root <= p) ==> p in t' && t'[p] == t[p])
    && (forall p :: p in t' && p !in t && !(root <= p) ==> p < root && t'[p] == Dir)
  }

  // The file is there with exactly this content.
  predicate Holds(t: Tree, path: Path, content: Content) {
    path in t && t[path] == File(content)
  }

  // Everything that was there still is, unchanged.
  predicate Keeps(t: Tree, t': Tree) {
    forall p :: p in t ==> p in t' && t'[p] == t[p]
  }

  // Every directory on the way to the path, itself included.
  predicate DirectoriesTo(t: Tree, path: Path) {
    forall i :: 0 <= i <= |path| ==> path[..i] in t && t[path[..i]] == Dir
  }

  // Entries that were not there before are directories on the way to one of the paths.
  ghost predicate OnlyAdds(t: Tree, t': Tree, paths: set<Path>) {
    forall p :: p in t' && p !in t ==> t'[p] == Dir && exists path :: path in paths && p <= path
  }

  lemma MkdirFacts(t: Tree, path: Path, fault: Fault)
    ensures var (t', ok) := MakeDirectory(t, path, fault);
            && Keeps(t, t') && OnlyAdds(t, t', {path})
            && (ok <==> !Blocked(t, path) && !fault.MkdirStops?) && (Blocked(t, path) ==> t' == t)
            && (ok ==> DirectoriesTo(t', path))
  {
    var (t', ok) := MakeDirectory(t, path, fault);
    assert path in {path};
    if ok {
      forall i | 0 <= i <= |path|
        ensures path[..i] in t' && t'[path[..i]] == Dir
      {
        assert path[..i] in t ==> t[path[..i]].Dir?;
      }
    }
  }

  lemma WriteTextFacts(t: Tree, dir: Path, name: string, content: Content, fault: Fault)
    ensures var ((t', ok), path) := (WriteFile(t, dir, name, content, fault), dir + [name]);
            && (forall p :: p in t && p != path ==> p in t' && t'[p] == t[p])
            && (forall p :: p in t' && p !in t && p != path ==> p <= dir && t'[p] == Dir)
            && (ok ==> Holds(t', path, content) && DirectoriesTo(t', dir))
            && (!ok ==>
                  || Holds(t', path, Partial)
                  || (path !in t' && path !in t)
                  || (path in t' && path in t && t'[path] == t[path]))
  {
    hide MakeDirectory, Blocked;
    MkdirFacts(t, dir, fault);
    var (made, ok) := MakeDirectory(t, dir, fault);
    var path := dir + [name];
    assert !(path <= dir);
    assert path in made ==> path in t;
    var (t', done) := WriteFile(t, dir, name, content, fault);
    if done {
      forall i | 0 <= i <= |dir|
        ensures dir[..i] in t' && t'[dir[..i]] == Dir
      {
        assert dir[..i] != path;
      }
    }
  }

  lemma MakeDirectoryFacts(t: Tree, root: Path, name: string, fault: Fault)
    ensures var (t', ok) := MakeDirectory(t, root + [name], fault);
            && Grows(t, t') && ContainedIn(t, t', root)
            && (forall p :: p in t ==> t'[p] == t[p]) && (forall p :: p in t' && p !in t ==> t'[p] == Dir)
            && (ok ==> root in t' && root + [name] in t' && t'[root + [name]] == Dir)
  {
    var path := root + [name];
    var (t', ok) := MakeDirectory(t, path, fault);
    forall p | p in t' && p !in t && !(root <= p)
      ensures p < root
    {
      assert p <= path && (|p| == |path| ==> p == path);
      assert p <= path && |p| <= |root|;
      assert forall i :: 0 <= i < |p| ==> p[i] == path[i] == root[i];
    }
    if ok {
      assert path[..|root|] == root && path[..|path|] == path;
    }
  }

  lemma WriteFileFacts(t: Tree, root: Path, dir: string, name: string, content: Content, fault: Fault)
    ensures var (t', ok) := WriteFile(t, root + [dir], name, content, fault);
            && Grows(t, t') && ContainedIn(t, t', root)
            && (ok ==> root in t' && root + [dir] + [name] in t' && t'[root + [dir] + [name]] == File(content))
            && (forall p :: p in t' && t'[p].File? ==>
                  (p in t && t'[p] == t[p]) || t'[p].content == Partial || (ok && p == root + [dir] + [name]))
  {
    hide MakeDirectory;
    MakeDirectoryFacts(t, root, dir, fault);
    var path := root + [dir] + [name];
    assert root <= path;
  }

  // The four directories of a workspace exist.
  predicate LaidOut(t: Tree, root: Path) {
    forall name :: name in {"artifacts", "logs", "metadata", "cache"} ==> root + [name] in t && t[root + [name]] == Dir
  }

  lemma CreateWorkspaceFacts(t: Tree, root: Path, w: Weather)
    ensures var (t', r) := CreateWorkspace(t, root, w);
            && Grows(t, t') && ContainedIn(t, t', root)
            && (forall p :: p in t ==> t'[p] == t[p]) && (forall p :: p in t' && p !in t ==> t'[p] == Dir)
            && (r.Success? ==> r.value == Layout(root) && root in t' && Occupied(t', root))
            && (r.Success? ==> LaidOut(t', root))
            && (r.Success? ==> !(root in t && Occupied(t, root)))
  {
    hide MakeDirectory;
    var (t0, ok0) := MakeDirectory(t, root + ["artifacts"], w.mkdirs.0);
    MakeDirectoryFacts(t, root, "artifacts", w.mkdirs.0);
    var (t1, ok1) := MakeDirectory(t0, root + ["logs"], w.mkdirs.1);
    MakeDirectoryFacts(t0, root, "logs", w.mkdirs.1);
    var (t2, ok2) := MakeDirectory(t1, root + ["metadata"], w.mkdirs.2);
    MakeDirectoryFacts(t1, root, "metadata", w.mkdirs.2);
    MakeDirectoryFacts(t2, root, "cache", w.mkdirs.3);
    assert root < root + ["cache"];
  }

  lemma CleanWorkspaceFacts(t: Tree, root: Path, w: Weather)
    ensures var (t', r) := CleanWorkspace(t, root, w);
            && ContainedIn(t, t', root)
            && (forall p :: p in t' ==> p in t && t'[p] == t[p])
            && (r.Success? && root in t ==> NothingUnder(t', root))
  {
  }

  // ----- one stage -----

  predicate Good(outcome: Outcome) {
    outcome.Returned? && outcome.result.success
  }

  // The prepared workspace, if any, is the plan's.
  predicate Placed(s: State, plan: BuildPlan) {
    s.workspace.Some? ==> s.workspace.value == Layout(plan.root)
  }

  // The stage run gets as far as removing the workspace.
  predicate CleansUp(stage: Stage, s: State, plan: BuildPlan, w: Weather) {
    stage.Finalize? && s.workspace.Some? && !plan.keepWorkspace && FinalizeRecords(s, plan, w).1.None?
  }

  lemma ContainedTransitively(t: Tree, t': Tree, t'': Tree, root: Path)
    requires ContainedIn(t, t', root) && ContainedIn(t', t'', root)
    ensures ContainedIn(t, t'', root)
  {
  }

  lemma RecordsFacts(s: State, plan: BuildPlan, w: Weather)
    requires s.workspace.Some? && Placed(s, plan)
    ensures var (s', ended) := FinalizeRecords(s, plan, w);
            && Grows(s.tree, s'.tree) && ContainedIn(s.tree, s'.tree, plan.root)
            && s'.workspace == s.workspace && s'.artifacts == s.artifacts && s'.results == s.results
            && (forall p :: p in s'.tree && s'.tree[p].File? && s'.tree[p].content.Manifest? ==>
                  p in s.tree && s'.tree[p] == s.tree[p])
            && (ended.None? ==> plan.root in s'.tree)
            && (ended.Some? ==> !Good(ended.value))
  {
    hide WriteFile;
    var metadata := w.metadata.(recipePath := plan.configPath);
    WriteFileFacts(s.tree, plan.root, "metadata", "provenance.json", Provenance(metadata), w.provenanceFault);
    var t1 := WriteFile(s.tree, plan.root + ["metadata"], "provenance.json", Provenance(metadata), w.provenanceFault).0;
    WriteFileFacts(t1, plan.root, "logs", "build.log", BuildLog(s.results, |s.artifacts|), w.logFault);
  }

  lemma StageKeepsPlaced(stage: Stage, s: State, plan: BuildPlan, w: Weather)
    requires !stage.Custom? && Placed(s, plan)
    ensures var (s', o) := RunStage(stage, s, plan, w);
            && Placed(s', plan) && s.artifacts <= s'.artifacts && ContainedIn(s.tree, s'.tree, plan.root)
            && (!CleansUp(stage, s, plan, w) ==> Grows(s.tree, s'.tree))
  {
    hide CreateWorkspace, WriteFile, CleanWorkspace, FinalizeRecords;
    match stage
    case ValidateConfig =>
    case PrepareWorkspace =>
      CreateWorkspaceFacts(s.tree, plan.root, w);
    case GenerateManifest =>
      WriteFileFacts(s.tree, plan.root, "metadata", "manifest.json", Manifest(plan, s.artifacts, s.results),
          w.manifestFault);
    case Finalize =>
      if s.workspace.Some? {
        RecordsFacts(s, plan, w);
        var s2 := FinalizeRecords(s, plan, w).0;
        CleanWorkspaceFacts(s2.tree, plan.root, w);
        if CleansUp(stage, s, plan, w) {
          ContainedTransitively(s.tree, s2.tree, CleanWorkspace(s2.tree, plan.root, w).0, plan.root);
        }
      }
  }

  lemma StageNeedsWorkspace(stage: Stage, s: State, plan: BuildPlan, w: Weather)
    requires !stage.Custom?
    ensures var (s', o) := RunStage(stage, s, plan, w);
            && (Good(o) && (stage.GenerateManifest? || stage.Finalize?) ==> s.workspace.Some?)
            && (s'.workspace.Some? && s.workspace.None? ==> stage.PrepareWorkspace? && Good(o))
  {
    hide CreateWorkspace, WriteFile, CleanWorkspace;
  }

  // Every entry has its ancestors in the tree.
  ghost predicate Rooted(t: Tree) {
    forall p, i :: p in t && 0 <= i <= |p| ==> p[..i] in t
  }

  // Prepare succeeds only on a free root, and then leaves the four directories of the layout.
  lemma PrepareNeedsEmptyRoot(s: State, plan: BuildPlan, w: Weather)
    ensures var (s', o) := RunPrepare(s, plan, w);
            Good(o) ==> && !(plan.root in s.tree && Occupied(s.tree, plan.root))
                        && plan.root in s'.tree && Occupied(s'.tree, plan.root)
                        && s'.workspace == Some(Workspace(plan.root, plan.root + ["artifacts"], plan.root + ["logs"],
                                                          plan.root + ["metadata"], plan.root + ["cache"]))
                        && LaidOut(s'.tree, plan.root)
                        && (Rooted(s.tree) ==> forall p :: p in s.tree ==> !(plan.root < p))
  {
    hide CreateWorkspace;
    CreateWorkspaceFacts(s.tree, plan.root, w);
    if p: Path :| Rooted(s.tree) && p in s.tree && plan.root < p {
      assert p[..|plan.root|] == plan.root;
    }
  }

  /** Right after a successful finalize that does not keep the workspace, nothing under the root exists. */
  lemma FinalizeLeavesNothing(s: State, plan: BuildPlan, w: Weather)
    requires Placed(s, plan) && !plan.keepWorkspace && Good(RunFinalize(s, plan, w).1)
    ensures NothingUnder(RunFinalize(s, plan, w).0.tree, plan.root)
  {
    hide WriteFile, CleanWorkspace, FinalizeRecords;
    RecordsFacts(s, plan, w);
    CleanWorkspaceFacts(FinalizeRecords(s, plan, w).0.tree, plan.root, w);
  }

  lemma KeptReflexively(t: Tree, root: Path)
    ensures Keeps(t, t) && ContainedIn(t, t, root)
  {
  }

  // What a finalize that runs in the plan's workspace leaves behind.
  lemma FinalizeFacts(s: State, plan: BuildPlan, w: Weather)
    ensures var (s', o) := RunFinalize(s, plan, w);
            var metadata := w.metadata.(recipePath := plan.configPath);
            && s'.workspace == s.workspace && s'.results == s.results && s'.artifacts == s.artifacts
            && (Good(o) ==> s'.metadata == Some(metadata)) && (!Good(o) ==> o in {Raised, Failed(Finalize, 70)})
            && (s.workspace.None? ==> s' == s && o == Failed(Finalize, 70))
            && (s.workspace == Some(Layout(plan.root)) ==>
                  && ContainedIn(s.tree, s'.tree, plan.root)
                  && (Good(o) && !plan.keepWorkspace ==> NothingUnder(s'.tree, plan.root))
                  && (Good(o) && plan.keepWorkspace ==>
                        && Holds(s'.tree, plan.root + ["metadata"] + ["provenance.json"], Provenance(metadata))
                        && Holds(s'.tree, plan.root + ["logs"] + ["build.log"], BuildLog(s.results, |s.artifacts|))))
  {
    hide CleanWorkspace, NothingUnder, ContainedIn, FinalizeRecords, Holds;
    RecordsShape(s, plan, w);
    if s.workspace.Some? {
      var (s2, ended) := FinalizeRecords(s, plan, w);
      var s3 := RunFinalize(s, plan, w).0;
      assert s3.metadata == s2.metadata;
      assert Good(RunFinalize(s, plan, w).1) ==> ended.None?;
      assert Good(RunFinalize(s, plan, w).1) && plan.keepWorkspace ==> s3.tree == s2.tree;
    }
    if s.workspace == Some(Layout(plan.root)) {
      StageKeepsPlaced(Finalize, s, plan, w);
      if !plan.keepWorkspace && Good(RunFinalize(s, plan, w).1) {
        FinalizeLeavesNothing(s, plan, w);
      }
    }
  }

  lemma RecordsShape(s: State, plan: BuildPlan, w: Weather)
    ensures s.workspace.Some? ==>
              var (s', ended) := FinalizeRecords(s, plan, w);
              var metadata := w.metadata.(recipePath := plan.configPath);
              && s'.workspace == s.workspace && s'.results == s.results && s'.artifacts == s.artifacts
              && (ended.None? ==> s'.metadata == Some(metadata))
              && (ended.Some? ==> ended.value in {Raised, Failed(Finalize, 70)} && !Good(ended.value))
              && (ended.None? && s.workspace == Some(Layout(plan.root)) ==>
                    && Holds(s'.tree, plan.root + ["metadata"] + ["provenance.json"], Provenance(metadata))
                    && Holds(s'.tree, plan.root + ["logs"] + ["build.log"], BuildLog(s.results, |s.artifacts|)))
  {
    hide WriteFile;
    if s.workspace.Some? {
      var metadata := w.metadata.(recipePath := plan.configPath);
      var (dir, logs) := (s.workspace.value.metadataDir, s.workspace.value.logsDir);
      WriteTextFacts(s.tree, dir, "provenance.json", Provenance(metadata), w.provenanceFault);
      var (t1, _) := WriteFile(s.tree, dir, "provenance.json", Provenance(metadata), w.provenanceFault);
      WriteTextFacts(t1, logs, "build.log", BuildLog(s.results, |s.artifacts|), w.logFault);
      assert (logs + ["build.log"])[|logs|] == "build.log" && (dir + ["provenance.json"])[|dir|] == "provenance.json";
      assert "build.log"[0] == 'b' && "provenance.json"[0] == 'p';
      if s.workspace == Some(Layout(plan.root)) {
        assert |logs| == |dir|;
      }
    }
  }

  /** Finalize in the plan's workspace: an entry under the root survives exactly if the workspace is kept, the stage
      ended before its cleanup, the root could not be inspected, or the removal failed and spared the entry. */
  lemma FinalizeRemovesExactlyWhen(s: State, plan: BuildPlan, w: Weather, p: Path)
    requires s.workspace == Some(Layout(plan.root)) && plan.root <= p
    requires p in s.tree || (p == plan.root && FinalizeRecords(s, plan, w).1.None?)
    ensures p in RunFinalize(s, plan, w).0.tree
       <==> || plan.keepWorkspace || FinalizeRecords(s, plan, w).1.Some? || w.cleanProbeRaises
            || (w.spared.Some? && p in w.spared.value)
  {
    hide FinalizeRecords, Grows, ContainedIn;
    RecordsFacts(s, plan, w);
    RecordsGrow(s, plan, w);
  }

  lemma RecordsGrow(s: State, plan: BuildPlan, w: Weather)
    requires s.workspace == Some(Layout(plan.root))
    ensures var (s', ended) := FinalizeRecords(s, plan, w);
            s.tree.Keys <= s'.tree.Keys && (ended.None? ==> plan.root in s'.tree && s'.tree[plan.root] == Dir)
  {
    hide WriteFile;
    RecordsFacts(s, plan, w);
    var metadata := w.metadata.(recipePath := plan.configPath);
    var dir, logs := plan.root + ["metadata"], plan.root + ["logs"];
    WriteTextFacts(s.tree, dir, "provenance.json", Provenance(metadata), w.provenanceFault);
    var t1 := WriteFile(s.tree, dir, "provenance.json", Provenance(metadata), w.provenanceFault).0;
    WriteTextFacts(t1, logs, "build.log", BuildLog(s.results, |s.artifacts|), w.logFault);
    assert logs[..|plan.root|] == plan.root;
  }

  // Whether the workspace is removed, and what is left, does not depend on how earlier stages ended.
  lemma CleanupIgnoresResults(s: State, others: seq<StageResult>, plan: BuildPlan, w: Weather)
    requires Placed(s, plan)
    ensures var (a, b) := (RunFinalize(s, plan, w), RunFinalize(s.(results := others), plan, w));
            && a.1 == b.1
            && (!plan.keepWorkspace && Good(a.1) ==> a.0.tree == b.0.tree && NothingUnder(a.0.tree, plan.root))
  {
    if s.workspace.Some? {
      var dir, name := plan.root + ["logs"], "build.log";
      var other := s.(results := others);
      RecordsFacts(s, plan, w);
      RecordsFacts(other, plan, w);
      var (t1, _) := WriteFile(s.tree, plan.root + ["metadata"], "provenance.json",
                               Provenance(w.metadata.(recipePath := plan.configPath)), w.provenanceFault);
      LogsDifferInside(t1, plan.root, BuildLog(s.results, |s.artifacts|), BuildLog(others, |s.artifacts|), w);
      if !plan.keepWorkspace && Good(RunFinalize(s, plan, w).1) {
        FinalizeLeavesNothing(s, plan, w);
      }
    }
  }

  lemma LogsDifferInside(t: Tree, root: Path, c: Content, d: Content, w: Weather)
    ensures var (a, b) := (WriteFile(t, root + ["logs"], "build.log", c, w.logFault),
                           WriteFile(t, root + ["logs"], "build.log", d, w.logFault));
            && a.1 == b.1 && (a.1 ==> CleanWorkspace(a.0, root, w).1 == CleanWorkspace(b.0, root, w).1)
            && (a.1 && root in a.0 && CleanWorkspace(a.0, root, w).1.Success? ==>
                  CleanWorkspace(a.0, root, w).0 == CleanWorkspace(b.0, root, w).0)
  {
    hide MakeDirectory;
    assert root <= root + ["logs"] + ["build.log"];
    assert root + ["logs"] + ["build.log"] != root;
  }

  // ----- whole runs -----

  lemma {:induction false} RunStaysPlaced(stages: seq<Stage>, s: State, plan: BuildPlan, weather: nat -> Weather,
      n: nat)
    requires Concrete(stages) && Placed(s, plan) && n <= |stages|
    ensures Placed(After(stages, s, plan, weather, n), plan)
  {
    hide RunStage;
    if n > 0 {
      RunStaysPlaced(stages, s, plan, weather, n - 1);
      StageKeepsPlaced(stages[n - 1], After(stages, s, plan, weather, n - 1), plan, weather(n - 1));
    }
  }

  // The i-th registered stage is selected and its run succeeds.
  predicate SucceedsAt(stages: seq<Stage>, s: State, plan: BuildPlan, weather: nat -> Weather, i: nat)
    requires i < |stages|
  {
    Selected(stages[i], plan) && Good(RunStage(stages[i], After(stages, s, plan, weather, i), plan, weather(i)).1)
  }

  predicate CleansUpAt(stages: seq<Stage>, s: State, plan: BuildPlan, weather: nat -> Weather, i: nat)
    requires i < |stages|
  {
    Selected(stages[i], plan) && CleansUp(stages[i], After(stages, s, plan, weather, i), plan, weather(i))
  }

  lemma {:induction false} WorkspaceComesFromPrepare(
    stages: seq<Stage>, s: State, plan: BuildPlan, weather: nat -> Weather, n: nat) returns (j: nat)
    requires Concrete(stages) && s.workspace.None? && n <= |stages|
    requires After(stages, s, plan, weather, n).workspace.Some?
    ensures j < n && stages[j].PrepareWorkspace? && SucceedsAt(stages, s, plan, weather, j)
  {
    hide RunStage;
    var before := After(stages, s, plan, weather, n - 1);
    if before.workspace.Some? {
      j := WorkspaceComesFromPrepare(stages, s, plan, weather, n - 1);
    } else {
      j := n - 1;
      StageNeedsWorkspace(stages[j], before, plan, weather(j));
    }
  }

  /** From a fresh context, a manifest or finalize stage succeeds only after an earlier successful prepare. */
  lemma NeedsEarlierPrepare(
    stages: seq<Stage>, s: State, plan: BuildPlan, weather: nat -> Weather, i: nat) returns (j: nat)
    requires Concrete(stages) && s.workspace.None? && i < |stages|
    requires stages[i].GenerateManifest? || stages[i].Finalize?
    requires SucceedsAt(stages, s, plan, weather, i)
    ensures j < i && stages[j].PrepareWorkspace? && SucceedsAt(stages, s, plan, weather, j)
  {
    hide RunStage, After;
    StageNeedsWorkspace(stages[i], After(stages, s, plan, weather, i), plan, weather(i));
    j := WorkspaceComesFromPrepare(stages, s, plan, weather, i);
  }

  // Once prepared, the root stays occupied until a finalize reaches its cleanup.
  lemma {:induction false} StaysOccupied(
    stages: seq<Stage>, s: State, plan: BuildPlan, weather: nat -> Weather, i: nat, n: nat) returns (k: Option<nat>)
    requires Concrete(stages) && Placed(s, plan) && i < n <= |stages|
    requires stages[i].PrepareWorkspace? && SucceedsAt(stages, s, plan, weather, i)
    ensures k.Some? ==> i < k.value < n && CleansUpAt(stages, s, plan, weather, k.value)
    ensures k.None? ==> var t := After(stages, s, plan, weather, n).tree; plan.root in t && Occupied(t, plan.root)
    decreases n
  {
    hide RunStage, CleansUp;
    var m := n - 1;
    var before := After(stages, s, plan, weather, m);
    if m == i {
      k := None;
      PreparedIsOccupied(before, plan, weather(m));
    } else {
      k := StaysOccupied(stages, s, plan, weather, i, m);
      if k.None? && Selected(stages[m], plan) {
        RunStaysPlaced(stages, s, plan, weather, m);
        StageKeepsPlaced(stages[m], before, plan, weather(m));
        if CleansUp(stages[m], before, plan, weather(m)) {
          k := Some(m);
        } else {
          var p :| p in before.tree && plan.root < p;
          assert p in After(stages, s, plan, weather, n).tree;
        }
      }
    }
  }

  lemma PreparedIsOccupied(s: State, plan: BuildPlan, w: Weather)
    requires Good(RunStage(PrepareWorkspace, s, plan, w).1)
    ensures !(plan.root in s.tree && Occupied(s.tree, plan.root))
    ensures var t := RunStage(PrepareWorkspace, s, plan, w).0.tree; plan.root in t && Occupied(t, plan.root)
  {
    hide RunPrepare;
    PrepareNeedsEmptyRoot(s, plan, w);
  }

  /** Between two successful prepares lies a finalize that reached its cleanup. */
  lemma CleanupBetweenPrepares(
    stages: seq<Stage>, s: State, plan: BuildPlan, weather: nat -> Weather, i: nat, j: nat) returns (k: nat)
    requires Concrete(stages) && Placed(s, plan) && i < j < |stages|
    requires stages[i].PrepareWorkspace? && SucceedsAt(stages, s, plan, weather, i)
    requires stages[j].PrepareWorkspace? && SucceedsAt(stages, s, plan, weather, j)
    ensures i < k < j && stages[k].Finalize? && !plan.keepWorkspace && CleansUpAt(stages, s, plan, weather, k)
  {
    hide RunStage, After;
    var found := StaysOccupied(stages, s, plan, weather, i, j);
    PreparedIsOccupied(After(stages, s, plan, weather, j), plan, weather(j));
    k := found.value;
  }

  // The same, seen from the tree after the i-th stage of a run.
  lemma NothingLeftAfterFinalize(stages: seq<Stage>, s: State, plan: BuildPlan, weather: nat -> Weather, i: nat)
    requires Concrete(stages) && Placed(s, plan) && i < |stages| && !plan.keepWorkspace
    requires stages[i].Finalize? && SucceedsAt(stages, s, plan, weather, i)
    ensures NothingUnder(After(stages, s, plan, weather, i + 1).tree, plan.root)
  {
    hide RunFinalize;
    RunStaysPlaced(stages, s, plan, weather, i);
    FinalizeLeavesNothing(After(stages, s, plan, weather, i), plan, weather(i));
  }

  /** No run touches anything outside the workspace root, except to create missing ancestors of it. */
  lemma {:induction false} RunStaysContained(stages: seq<Stage>, s: State, plan: BuildPlan, weather: nat -> Weather,
      n: nat)
    requires Concrete(stages) && Placed(s, plan) && n <= |stages|
    ensures ContainedIn(s.tree, After(stages, s, plan, weather, n).tree, plan.root)
  {
    hide RunStage, ContainedIn;
    ContainedReflexively(s.tree, plan.root);
    if n > 0 {
      var before := After(stages, s, plan, weather, n - 1);
      RunStaysContained(stages, s, plan, weather, n - 1);
      RunStaysPlaced(stages, s, plan, weather, n - 1);
      StageKeepsPlaced(stages[n - 1], before, plan, weather(n - 1));
      if Selected(stages[n - 1], plan) {
        ContainedTransitively(s.tree, before.tree, After(stages, s, plan, weather, n).tree, plan.root);
      }
    }
  }

  lemma ContainedReflexively(t: Tree, root: Path)
    ensures ContainedIn(t, t, root)
  {
  }

  // ----- growth and manifests -----

  lemma {:induction false} ListsOnlyGrow(
    stages: seq<Stage>, s: State, plan: BuildPlan, weather: nat -> Weather, m: nat, n: nat)
    requires Concrete(stages) && Placed(s, plan) && m <= n <= |stages|
    ensures After(stages, s, plan, weather, m).results <= After(stages, s, plan, weather, n).results
    ensures After(stages, s, plan, weather, m).artifacts <= After(stages, s, plan, weather, n).artifacts
    decreases n
  {
    hide RunStage;
    if m < n {
      ListsOnlyGrow(stages, s, plan, weather, m, n - 1);
      RunStaysPlaced(stages, s, plan, weather, n - 1);
      var before := After(stages, s, plan, weather, n - 1);
      StageKeepsPlaced(stages[n - 1], before, plan, weather(n - 1));
      StageKeepsResults(stages[n - 1], before, plan, weather(n - 1));
    }
  }

  // A successful manifest stage leaves on disk exactly what had been accumulated before it.
  lemma ManifestWritten(s: State, plan: BuildPlan, w: Weather)
    requires Placed(s, plan) && Good(RunManifest(s, plan, w).1)
    ensures var (s', _) := RunManifest(s, plan, w);
            var path := Layout(plan.root).metadataDir + ["manifest.json"];
            && path in s'.tree && s'.tree[path] == File(Manifest(plan, s.artifacts, s.results))
            && s'.artifacts == s.artifacts + [MANIFEST_ARTIFACT]
  {
    hide WriteFile;
    WriteFileFacts(s.tree, plan.root, "metadata", "manifest.json", Manifest(plan, s.artifacts, s.results),
        w.manifestFault);
  }

  // Every manifest in the tree was there before the run, or is this plan's and records a prefix of both lists.
  ghost predicate ManifestsArePrefixes(start: Tree, s: State, plan: BuildPlan) {
    forall p :: p in s.tree && s.tree[p].File? && s.tree[p].content.Manifest? ==>
      || (p in start && start[p] == s.tree[p])
      || (s.tree[p].content.plan == plan
          && s.tree[p].content.artifacts <= s.artifacts && s.tree[p].content.stageResults <= s.results)
  }

  lemma StageKeepsManifests(stage: Stage, start: Tree, s: State, plan: BuildPlan, w: Weather)
    requires !stage.Custom? && Placed(s, plan) && ManifestsArePrefixes(start, s, plan)
    ensures ManifestsArePrefixes(start, RunStage(stage, s, plan, w).0, plan)
  {
    hide CreateWorkspace, WriteFile, CleanWorkspace, FinalizeRecords;
    match stage
    case ValidateConfig =>
    case PrepareWorkspace =>
      CreateWorkspaceFacts(s.tree, plan.root, w);
    case GenerateManifest =>
      WriteFileFacts(s.tree, plan.root, "metadata", "manifest.json", Manifest(plan, s.artifacts, s.results),
          w.manifestFault);
    case Finalize =>
      if s.workspace.Some? {
        RecordsFacts(s, plan, w);
        CleanWorkspaceFacts(FinalizeRecords(s, plan, w).0.tree, plan.root, w);
      }
  }

  /** At every moment of a run, each manifest it wrote records a prefix of the results and artifacts so far. */
  lemma {:induction false} RunManifestsArePrefixes(
    stages: seq<Stage>, s: State, plan: BuildPlan, weather: nat -> Weather, n: nat)
    requires Concrete(stages) && Placed(s, plan) && n <= |stages|
    ensures ManifestsArePrefixes(s.tree, After(stages, s, plan, weather, n), plan)
  {
    hide RunStage;
    if n > 0 {
      var before := After(stages, s, plan, weather, n - 1);
      RunManifestsArePrefixes(stages, s, plan, weather, n - 1);
      RunStaysPlaced(stages, s, plan, weather, n - 1);
      StageKeepsManifests(stages[n - 1], s.tree, before, plan, weather(n - 1));
      StageKeepsResults(stages[n - 1], before, plan, weather(n - 1));
    }
  }
}
