/** The stages and the pipeline on the mutable context and directory tree, proved against the value-level model. */
module BuilderMachine {
  import opened Wrappers
  import opened BuilderModel
  import opened BuilderLaws
  import opened BuilderOutcomes

  class FileTree {
    var entries: Tree

    constructor (entries: Tree)
      ensures this.entries == entries
    {
      this.entries := entries;
    }

    // Makes a directory with its missing ancestors, nothing if a file is in the way.
    method Mkdir(path: Path, fault: Fault) returns (ok: bool)
      modifies this
      ensures (entries, ok) == MakeDirectory(old(entries), path, fault)
      ensures ok <==> !Blocked(old(entries), path) && !fault.MkdirStops?
      ensures ok ==> DirectoriesTo(entries, path)
      ensures Blocked(old(entries), path) ==> entries == old(entries)
      ensures Keeps(old(entries), entries) && OnlyAdds(old(entries), entries, {path})
    {
      hide WithAncestors, Blocked, DirectoriesTo, Keeps, OnlyAdds;
      MkdirFacts(entries, path, fault);
      if Blocked(entries, path) {
        return false;
      }
      var stop := if fault.MkdirStops? && fault.depth < |path| then fault.depth else |path|;
      entries := WithAncestors(entries, path, stop);
      ok := !fault.MkdirStops?;
    }

    // Writes a file into a directory that is made first; a failure leaves the file as it was, or partial.
    method WriteText(dir: Path, name: string, content: Content, fault: Fault) returns (ok: bool)
      modifies this
      ensures (entries, ok) == WriteFile(old(entries), dir, name, content, fault)
      ensures ok ==> Holds(entries, dir + [name], content) && DirectoriesTo(entries, dir)
      ensures !ok ==> || Holds(entries, dir + [name], Partial)
                      || (dir + [name] !in entries && dir + [name] !in old(entries))
                      || (dir + [name] in entries && dir + [name] in old(entries)
                          && entries[dir + [name]] == old(entries)[dir + [name]])
      ensures forall p :: p in old(entries) && p != dir + [name] ==> p in entries && entries[p] == old(entries)[p]
      ensures forall p :: p in entries && p !in old(entries) && p != dir + [name] ==> p <= dir && entries[p] == Dir
    {
      hide MakeDirectory, Blocked, DirectoriesTo, Keeps, OnlyAdds;
      WriteTextFacts(entries, dir, name, content, fault);
      ok := Mkdir(dir, fault);
      var path := dir + [name];
      if !ok || (path in entries && entries[path].Dir?) {
        return false;
      }
      if fault.WriteStops? {
        if fault.touched {
          entries := entries[path := File(Partial)];
        }
        return false;
      }
      entries := entries[path := File(content)];
    }
  }

  class BuildWorkspaceManager {
    const root: Path
    const files: FileTree

    constructor (root: Path, files: FileTree)
      ensures this.root == root && this.files == files
    {
      this.root, this.files := root, files;
    }

    method Create(w: Weather) returns (r: Result<Workspace, WorkspaceFailure>)
      modifies files
      ensures (files.entries, r) == CreateWorkspace(old(files.entries), root, w)
      ensures r.Success? <==> !w.listingRaises && CanPrepare(old(files.entries), root) && NoneStops(w.mkdirs)
      ensures r.Success? ==> r.value == Layout(root) && LaidOut(files.entries, root)
      ensures r == Failure(OsError)
         <==> w.listingRaises || (root in old(files.entries) && old(files.entries)[root].File?)
      ensures root in old(files.entries) && Occupied(old(files.entries), root) ==>
                r.Failure? && files.entries == old(files.entries)
      ensures Keeps(old(files.entries), files.entries) && ContainedIn(old(files.entries), files.entries, root)
      ensures forall p :: p in files.entries && p !in old(files.entries) ==> files.entries[p] == Dir
    {
      hide MakeDirectory, Blocked, DirectoriesTo, OnlyAdds, LaidOut, ContainedIn, CanPrepare;
      CreateWorkspaceFacts(files.entries, root, w);
      CreateEnds(files.entries, root, w);
      if w.listingRaises || (root in files.entries && files.entries[root].File?) {
        return Failure(OsError);
      }
      if root in files.entries && Occupied(files.entries, root) {
        return Failure(NotEmpty);
      }
      var ok := files.Mkdir(root + ["artifacts"], w.mkdirs.0);
      if ok {
        ok := files.Mkdir(root + ["logs"], w.mkdirs.1);
      }
      if ok {
        ok := files.Mkdir(root + ["metadata"], w.mkdirs.2);
      }
      if ok {
        ok := files.Mkdir(root + ["cache"], w.mkdirs.3);
      }
      r := if ok then Success(Layout(root)) else Failure(CannotCreate);
    }

    method Clean(w: Weather) returns (r: Result<(), WorkspaceFailure>)
      modifies files
      ensures (files.entries, r) == CleanWorkspace(old(files.entries), root, w)
      ensures r.Success?
         <==> && !w.cleanProbeRaises
              && (root !in old(files.entries) || (old(files.entries)[root].Dir? && w.spared.None?))
      ensures r.Failure? ==> r.error == if w.cleanProbeRaises then OsError else CannotClean
      ensures r.Success? && root in old(files.entries) ==> NothingUnder(files.entries, root)
      ensures root !in old(files.entries) ==> files.entries == old(files.entries) && (r.Success? || w.cleanProbeRaises)
      ensures forall p :: p in files.entries ==> p in old(files.entries) && files.entries[p] == old(files.entries)[p]
      ensures forall p :: p in old(files.entries) && !(root <= p) ==> p in files.entries
    {
      CleanWorkspaceFacts(files.entries, root, w);
      CleanEnds(files.entries, root, w);
      hide RemoveTree;
      if w.cleanProbeRaises {
        return Failure(OsError);
      }
      if root !in files.entries {
        return Success(());
      }
      if files.entries[root].File? {
        return Failure(CannotClean);
      }
      var (entries, ok) := RemoveTree(files.entries, root, w.spared);
      files.entries := entries;
      r := if ok then Success(()) else Failure(CannotClean);
    }

    // Inside the root: the root itself, or a path with the root among its parents.
    predicate Contains(path: Path)
      ensures Contains(path) <==> root <= path
    {
      assert root <= path ==> path[..|root|] == root;
      path == root || exists i :: 0 <= i < |path| && path[..i] == root
    }
  }

  class BuildContext {
    const plan: BuildPlan
    var workspace: Option<Workspace>
    var metadata: Option<Metadata>
    var stageResults: seq<StageResult>
    var artifacts: seq<Artifact>

    constructor (plan: BuildPlan)
      ensures this.plan == plan && workspace == None && metadata == None && stageResults == [] && artifacts == []
    {
      this.plan := plan;
      workspace, metadata, stageResults, artifacts := None, None, [], [];
    }

    function Snapshot(files: FileTree): State
      reads this, files
    {
      State(workspace, metadata, stageResults, artifacts, files.entries)
    }

    method Prepare(files: FileTree, w: Weather) returns (outcome: Outcome)
      modifies this, files
      ensures (Snapshot(files), outcome) == RunPrepare(old(Snapshot(files)), plan, w)
      ensures Good(outcome) ==> workspace == Some(Layout(plan.root)) && LaidOut(files.entries, plan.root)
      ensures outcome.Raised? <==> w.resolveRaises
      ensures !Good(outcome) ==> workspace == old(workspace) && outcome in {Raised, Failed(PrepareWorkspace, 10)}
      ensures metadata == old(metadata) && stageResults == old(stageResults) && artifacts == old(artifacts)
      ensures Keeps(old(files.entries), files.entries) && ContainedIn(old(files.entries), files.entries, plan.root)
    {
      hide CreateWorkspace, LaidOut, ContainedIn, Keeps;
      if w.resolveRaises {
        KeptReflexively(files.entries, plan.root);
        return Raised;
      }
      var manager := new BuildWorkspaceManager(plan.root, files);
      var created := manager.Create(w);
      match created {
        case Failure(_) =>
          outcome := Failed(PrepareWorkspace, 10);
        case Success(prepared) =>
          workspace := Some(prepared);
          outcome := Done(PrepareWorkspace, []);
      }
    }

    method WriteManifest(files: FileTree, w: Weather) returns (outcome: Outcome)
      modifies this, files
      ensures (Snapshot(files), outcome) == RunManifest(old(Snapshot(files)), plan, w)
      ensures Good(outcome) ==>
                && workspace.Some? && artifacts == old(artifacts) + [MANIFEST_ARTIFACT]
                && Holds(files.entries, workspace.value.metadataDir + ["manifest.json"],
                         Manifest(plan, old(artifacts), old(stageResults)))
      ensures !Good(outcome) ==> artifacts == old(artifacts) && outcome == Failed(GenerateManifest, 30)
      ensures workspace.None? ==> !Good(outcome) && files.entries == old(files.entries)
      ensures workspace == old(workspace) && metadata == old(metadata) && stageResults == old(stageResults)
      ensures workspace.Some? ==>
                forall p :: p in old(files.entries) && p != workspace.value.metadataDir + ["manifest.json"] ==>
                  p in files.entries && files.entries[p] == old(files.entries)[p]
    {
      hide WriteFile;
      if workspace.None? {
        return Failed(GenerateManifest, 30);
      }
      var manifest := Manifest(plan, artifacts, stageResults);
      var ok := files.WriteText(workspace.value.metadataDir, "manifest.json", manifest, w.manifestFault);
      if !ok {
        return Failed(GenerateManifest, 30);
      }
      artifacts := artifacts + [MANIFEST_ARTIFACT];
      outcome := Done(GenerateManifest, [MANIFEST_ARTIFACT]);
    }

    method FinalizeBuild(files: FileTree, w: Weather) returns (outcome: Outcome)
      modifies this, files
      ensures (Snapshot(files), outcome) == RunFinalize(old(Snapshot(files)), plan, w)
      ensures workspace == old(workspace) && stageResults == old(stageResults) && artifacts == old(artifacts)
      ensures workspace.None? ==>
                && outcome == Failed(Finalize, 70)
                && metadata == old(metadata) && files.entries == old(files.entries)
      ensures !Good(outcome) ==> outcome in {Raised, Failed(Finalize, 70)}
      ensures Good(outcome) ==> metadata == Some(w.metadata.(recipePath := plan.configPath))
      ensures Good(outcome) && !plan.keepWorkspace && workspace == Some(Layout(plan.root)) ==>
                NothingUnder(files.entries, plan.root)
      ensures Good(outcome) && plan.keepWorkspace && workspace == Some(Layout(plan.root)) ==>
                && Holds(files.entries, workspace.value.metadataDir + ["provenance.json"],
                         Provenance(w.metadata.(recipePath := plan.configPath)))
                && Holds(files.entries, workspace.value.logsDir + ["build.log"], BuildLog(stageResults, |artifacts|))
      ensures workspace == Some(Layout(plan.root)) ==> ContainedIn(old(files.entries), files.entries, plan.root)
    {
      hide WriteFile, CleanWorkspace, Holds, NothingUnder, ContainedIn;
      FinalizeFacts(Snapshot(files), plan, w);
      if workspace.None? {
        return Failed(Finalize, 70);
      }
      if w.probeRaises {
        return Raised;
      }
      var record := w.metadata.(recipePath := plan.configPath);
      metadata := Some(record);
      var ok := files.WriteText(workspace.value.metadataDir, "provenance.json", Provenance(record), w.provenanceFault);
      if !ok {
        return Failed(Finalize, 70);
      }
      ok := files.WriteText(workspace.value.logsDir, "build.log", BuildLog(stageResults, |artifacts|), w.logFault);
      if !ok {
        return Raised;
      }
      if !plan.keepWorkspace {
        var manager := new BuildWorkspaceManager(workspace.value.root, files);
        var cleaned := manager.Clean(w);
        if cleaned.Failure? {
          return if cleaned.error == OsError then Raised else Failed(Finalize, 70);
        }
      }
      outcome := Done(Finalize, []);
    }

    method Run(stage: Stage, files: FileTree, w: Weather) returns (outcome: Outcome)
      modifies this, files
      ensures (Snapshot(files), outcome) == RunStage(stage, old(Snapshot(files)), plan, w)
      ensures !stage.Custom? ==> stageResults == old(stageResults)
      ensures !stage.Custom? && Placed(old(Snapshot(files)), plan) ==>
                && Placed(Snapshot(files), plan) && old(artifacts) <= artifacts
                && ContainedIn(old(files.entries), files.entries, plan.root)
    {
      hide RunPrepare, RunManifest, RunFinalize, ContainedIn;
      if !stage.Custom? {
        StageKeepsResults(stage, Snapshot(files), plan, w);
        if Placed(Snapshot(files), plan) {
          StageKeepsPlaced(stage, Snapshot(files), plan, w);
        }
      }
      match stage {
        case ValidateConfig =>
          outcome := RunValidate(Snapshot(files), plan, w).1;
        case PrepareWorkspace =>
          outcome := Prepare(files, w);
        case GenerateManifest =>
          outcome := WriteManifest(files, w);
        case Finalize =>
          outcome := FinalizeBuild(files, w);
        case Custom(_, act) =>
          var (s, o) := act(Snapshot(files));
          workspace, metadata, stageResults, artifacts := s.workspace, s.metadata, s.results, s.artifacts;
          files.entries := s.tree;
          outcome := o;
      }
    }
  }

  lemma StepFacts(stages: seq<Stage>, s: State, plan: BuildPlan, weather: nat -> Weather, n: nat)
    requires n < |stages|
    ensures After(stages, s, plan, weather, n + 1)
         == Tick(stages[n], After(stages, s, plan, weather, n), plan, weather(n))
    ensures Succeeds(stages, s, plan, weather, n) <==>
              (Selected(stages[n], plan) ==>
                var outcome := RunStage(stages[n], After(stages, s, plan, weather, n), plan, weather(n)).1;
                ResultOf(stages[n], outcome).success)
  {
  }

  datatype PipelineError = NoStages

  datatype BuildSummary = BuildSummary(plan: BuildPlan, stageResults: seq<StageResult>, success: bool)

  class BuildPipeline {
    const stages: seq<Stage>

    constructor (stages: seq<Stage>)
      requires stages != []
      ensures this.stages == stages
    {
      this.stages := stages;
    }

    // The pipeline refuses an empty stage list.
    static method Create(stages: seq<Stage>) returns (r: Result<BuildPipeline, PipelineError>)
      ensures r.Failure? <==> stages == []
      ensures r.Success? ==> fresh(r.value) && r.value.stages == stages
    {
      if stages == [] {
        return Failure(NoStages);
      }
      var pipeline := new BuildPipeline(stages);
      r := Success(pipeline);
    }

    /** Runs every selected stage in registration order, whether earlier ones failed, raised or succeeded. */
    method Run(context: BuildContext, files: FileTree, weather: nat -> Weather) returns (summary: BuildSummary)
      modifies context, files
      ensures context.Snapshot(files) == After(stages, old(context.Snapshot(files)), context.plan, weather, |stages|)
      ensures summary.plan == context.plan && summary.stageResults == context.stageResults
      ensures summary.success <==>
              forall i :: 0 <= i < |stages| ==> Succeeds(stages, old(context.Snapshot(files)), context.plan, weather, i)
    {
      hide RunStage;
      var plan := context.plan;
      ghost var start := context.Snapshot(files);
      var overallSuccess := true;
      for n := 0 to |stages|
        invariant context.Snapshot(files) == After(stages, start, plan, weather, n)
        invariant overallSuccess <==> forall i :: 0 <= i < n ==> Succeeds(stages, start, plan, weather, i)
      {
        hide Succeeds;
        StepFacts(stages, start, plan, weather, n);
        var stage := stages[n];
        if Selected(stage, plan) {
          var outcome := context.Run(stage, files, weather(n));
          var result: StageResult;
          match outcome {
            case Raised =>
              result := StageResult(stage.Name(), false, 99, []);
              overallSuccess := false;
            case Returned(returned) =>
              result := returned;
              if !result.success {
                overallSuccess := false;
              }
          }
          context.stageResults := context.stageResults + [result];
        }
      }
      summary := BuildSummary(plan, context.stageResults, overallSuccess);
    }
  }
}
