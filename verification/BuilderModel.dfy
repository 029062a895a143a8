/**
 The build pipeline as values: plans, results, the directory tree, and what each stage does to them.
 Everything the outside world decides about one stage run (which operations fail, and how far they got,
 the clock, the commit) arrives as one `Weather` value.
 */
module BuilderModel {
  import opened Wrappers
  import opened Text

  type Path = seq<string>

  datatype Artifact = Artifact(path: string, kind: string, checksum: Option<string>, size: Option<nat>)

  datatype StageResult = StageResult(stageName: string, success: bool, exitCode: nat, artifacts: seq<Artifact>)

  // An empty selection means every registered stage.
  datatype BuildPlan = BuildPlan(configPath: string, root: Path, stages: seq<string>, keepWorkspace: bool)

  datatype Workspace = Workspace(root: Path, artifactsDir: Path, logsDir: Path, metadataDir: Path, cacheDir: Path)

  datatype Metadata = Metadata(timestamp: int, toolVersion: string, gitCommit: Option<string>, recipePath: string)

  datatype Content =
    | Manifest(plan: BuildPlan, artifacts: seq<Artifact>, stageResults: seq<StageResult>)
    | Provenance(metadata: Metadata)
    | BuildLog(stageResults: seq<StageResult>, artifactCount: nat)
    | Partial

  datatype Entry = Dir | File(content: Content)

  type Tree = map<Path, Entry>

  // The mutable part of a build: the context's fields and the directory tree.
  datatype State = State(
    workspace: Option<Workspace>,
    metadata: Option<Metadata>,
    results: seq<StageResult>,
    artifacts: seq<Artifact>,
    tree: Tree)

  // ----- file operations, with the point at which they fail -----

  datatype Fault =
    | NoFault
    | MkdirStops(depth: nat)            // only ancestors up to this length get created
    | WriteStops(touched: bool)         // the directory is there; a touched file holds something partial

  predicate Blocked(tree: Tree, path: Path) {
    exists i :: 0 <= i <= |path| && path[..i] in tree && tree[path[..i]].File?
  }

  function WithAncestors(tree: Tree, path: Path, depth: nat): (t: Tree)
    requires depth <= |path|
    ensures forall p :: p in tree ==> p in t && t[p] == tree[p]
    ensures forall i :: 0 <= i <= depth ==> path[..i] in t
    ensures forall p :: p in t && p !in tree ==> t[p] == Dir && p <= path
  {
    var t := if depth == 0 then tree else WithAncestors(tree, path, depth - 1);
    if path[..depth] in t then t else t[path[..depth] := Dir]
  }

  // `mkdir(parents=True, exist_ok=True)`
  function MakeDirectory(tree: Tree, path: Path, fault: Fault): (Tree, bool) {
    if Blocked(tree, path) then (tree, false)
    else if fault.MkdirStops? then
      (WithAncestors(tree, path, if fault.depth < |path| then fault.depth else |path|), false)
    else (WithAncestors(tree, path, |path|), true)
  }

  // Writing a file after creating its parent directories.
  function WriteFile(tree: Tree, dir: Path, name: string, content: Content, fault: Fault): (Tree, bool) {
    var (made, ok) := MakeDirectory(tree, dir, fault);
    var path := dir + [name];
    if !ok then (made, false)
    else if path in made && made[path].Dir? then (made, false)
    else if fault.WriteStops? then
      (if fault.touched then made[path := File(Partial)] else made, false)
    else (made[path := File(content)], true)
  }

  predicate Occupied(tree: Tree, root: Path) {
    exists p :: p in tree && root < p
  }

  // Everything under the root that a failing removal has not reached is still there.
  function RemoveTree(tree: Tree, root: Path, spared: Option<set<Path>>): (Tree, bool) {
    match spared
    case None => (map p | p in tree && !(root <= p) :: tree[p], true)
    case Some(kept) => (map p | p in tree && (!(root <= p) || p in kept) :: tree[p], false)
  }

  // ----- one stage run -----

  datatype Weather = Weather(
    configProbeRaises: bool,                   // inspecting the configuration file
    configExists: bool, configIsFile: bool, configReadable: bool,
    resolveRaises: bool,                       // resolving the root, as a symlink loop does, with no OSError
    listingRaises: bool,                       // inspecting the root while creating the workspace
    mkdirs: (Fault, Fault, Fault, Fault),
    manifestFault: Fault,
    probeRaises: bool,                         // inspecting an artifact while finalizing
    metadata: Metadata,
    provenanceFault: Fault,
    logFault: Fault,
    cleanProbeRaises: bool,                    // resolving or inspecting the root before removing it
    spared: Option<set<Path>>)                 // what a failing removal leaves behind

  datatype Outcome = Returned(result: StageResult) | Raised

  datatype Stage =
    | ValidateConfig
    | PrepareWorkspace
    | GenerateManifest
    | Finalize
    | Custom(name_: string, act: State -> (State, Outcome))
  {
    function Name(): string {
      match this
      case ValidateConfig => "validate-config"
      case PrepareWorkspace => "prepare-workspace"
      case GenerateManifest => "generate-manifest"
      case Finalize => "finalize"
      case Custom(n, _) => n
    }
  }

  function Done(stage: Stage, artifacts: seq<Artifact>): Outcome {
    Returned(StageResult(stage.Name(), true, 0, artifacts))
  }

  function Failed(stage: Stage, exitCode: nat): Outcome {
    Returned(StageResult(stage.Name(), false, exitCode, []))
  }

  function Layout(root: Path): Workspace {
    Workspace(root, root + ["artifacts"], root + ["logs"], root + ["metadata"], root + ["cache"])
  }

  datatype WorkspaceFailure = NotEmpty | CannotCreate | CannotClean | OsError

  function CreateWorkspace(tree: Tree, root: Path, w: Weather): (Tree, Result<Workspace, WorkspaceFailure>) {
    if w.listingRaises || (root in tree && tree[root].File?) then (tree, Failure(OsError))
    else if root in tree && Occupied(tree, root) then (tree, Failure(NotEmpty))
    else
      var (t0, ok0) := MakeDirectory(tree, root + ["artifacts"], w.mkdirs.0);
      if !ok0 then (t0, Failure(CannotCreate)) else
      var (t1, ok1) := MakeDirectory(t0, root + ["logs"], w.mkdirs.1);
      if !ok1 then (t1, Failure(CannotCreate)) else
      var (t2, ok2) := MakeDirectory(t1, root + ["metadata"], w.mkdirs.2);
      if !ok2 then (t2, Failure(CannotCreate)) else
      var (t3, ok3) := MakeDirectory(t2, root + ["cache"], w.mkdirs.3);
      if !ok3 then (t3, Failure(CannotCreate)) else (t3, Success(Layout(root)))
  }

  function CleanWorkspace(tree: Tree, root: Path, w: Weather): (Tree, Result<(), WorkspaceFailure>) {
    if w.cleanProbeRaises then (tree, Failure(OsError))
    else if root !in tree then (tree, Success(()))
    else if tree[root].File? then (tree, Failure(CannotClean))
    else
      var (t, ok) := RemoveTree(tree, root, w.spared);
      (t, if ok then Success(()) else Failure(CannotClean))
  }

  // ----- the suffix of a file name, as Python 3.12's pathlib takes it -----

  // What follows the last occurrence of a character; the whole text if there is none.
  function AfterLast(s: string, c: char): string {
    if s == "" || s[|s| - 1] == c then "" else AfterLast(s[..|s| - 1], c) + [s[|s| - 1]]
  }

  function FileName(path: string): string {
    AfterLast(path, '/')
  }

  // From the last dot on, unless the name starts or ends with it.
  function Suffix(path: string): string {
    var (name, ext) := (FileName(path), AfterLast(FileName(path), '.'));
    if ext != "" && |ext| + 1 < |name| then "." + ext else ""
  }

  predicate NamesYaml(path: string) {
    Lower(Suffix(path)) in {".yaml", ".yml"}
  }

  function RunValidate(s: State, plan: BuildPlan, w: Weather): (State, Outcome) {
    (s, if w.configProbeRaises then Raised
        else if w.configExists && w.configIsFile && w.configReadable && NamesYaml(plan.configPath) then
          Done(ValidateConfig, [])
        else Failed(ValidateConfig, 1))
  }

  function RunPrepare(s: State, plan: BuildPlan, w: Weather): (State, Outcome) {
    if w.resolveRaises then (s, Raised) else
    var (tree, created) := CreateWorkspace(s.tree, plan.root, w);
    match created
    case Success(workspace) => (s.(tree := tree, workspace := Some(workspace)), Done(PrepareWorkspace, []))
    case Failure(_) => (s.(tree := tree), Failed(PrepareWorkspace, 10))
  }

  const MANIFEST_ARTIFACT := Artifact("metadata/manifest.json", "manifest", None, None)

  function RunManifest(s: State, plan: BuildPlan, w: Weather): (State, Outcome) {
    if s.workspace.None? then (s, Failed(GenerateManifest, 30))
    else
      var manifest := Manifest(plan, s.artifacts, s.results);
      var (tree, ok) := WriteFile(s.tree, s.workspace.value.metadataDir, "manifest.json", manifest, w.manifestFault);
      if !ok then (s.(tree := tree), Failed(GenerateManifest, 30))
      else (s.(tree := tree, artifacts := s.artifacts + [MANIFEST_ARTIFACT]),
          Done(GenerateManifest, [MANIFEST_ARTIFACT]))
  }

  // Up to the optional cleanup: the state so far, and the outcome if the stage ends before it.
  function FinalizeRecords(s: State, plan: BuildPlan, w: Weather): (State, Option<Outcome>)
    requires s.workspace.Some?
  {
    if w.probeRaises then (s, Some(Raised))
    else
      var workspace := s.workspace.value;
      var metadata := w.metadata.(recipePath := plan.configPath);
      var (t1, ok1) := WriteFile(s.tree, workspace.metadataDir, "provenance.json", Provenance(metadata),
          w.provenanceFault);
      var s1 := s.(metadata := Some(metadata), tree := t1);
      if !ok1 then (s1, Some(Failed(Finalize, 70)))
      else
        var (t2, ok2) := WriteFile(t1, workspace.logsDir, "build.log", BuildLog(s.results, |s.artifacts|), w.logFault);
        (s1.(tree := t2), if ok2 then None else Some(Raised))
  }

  function RunFinalize(s: State, plan: BuildPlan, w: Weather): (State, Outcome) {
    if s.workspace.None? then (s, Failed(Finalize, 70))
    else
      var (s2, ended) := FinalizeRecords(s, plan, w);
      if ended.Some? then (s2, ended.value)
      else if plan.keepWorkspace then (s2, Done(Finalize, []))
      else
        var (tree, cleaned) := CleanWorkspace(s2.tree, s.workspace.value.root, w);
        var s3 := s2.(tree := tree);
        match cleaned
        case Success(_) => (s3, Done(Finalize, []))
        case Failure(OsError) => (s3, Raised)
        case Failure(_) => (s3, Failed(Finalize, 70))
  }

  function RunStage(stage: Stage, s: State, plan: BuildPlan, w: Weather): (State, Outcome) {
    match stage
    case ValidateConfig => RunValidate(s, plan, w)
    case PrepareWorkspace => RunPrepare(s, plan, w)
    case GenerateManifest => RunManifest(s, plan, w)
    case Finalize => RunFinalize(s, plan, w)
    case Custom(_, act) => act(s)
  }

  // ----- the pipeline -----

  predicate Selected(stage: Stage, plan: BuildPlan) {
    plan.stages == [] || stage.Name() in plan.stages
  }

  function ResultOf(stage: Stage, outcome: Outcome): StageResult {
    match outcome
    case Returned(result) => result
    case Raised => StageResult(stage.Name(), false, 99, [])
  }

  // One registered stage: skipped when not selected, otherwise run and its result recorded.
  function Tick(stage: Stage, s: State, plan: BuildPlan, w: Weather): State {
    if !Selected(stage, plan) then s
    else
      var (s', outcome) := RunStage(stage, s, plan, w);
      s'.(results := s'.results + [ResultOf(stage, outcome)])
  }

  // The state after the first `n` registered stages.
  function After(stages: seq<Stage>, s: State, plan: BuildPlan, weather: nat -> Weather, n: nat): State
    requires n <= |stages|
  {
    if n == 0 then s else Tick(stages[n - 1], After(stages, s, plan, weather, n - 1), plan, weather(n - 1))
  }

  // The i-th registered stage is skipped, or its recorded result is a success.
  predicate Succeeds(stages: seq<Stage>, s: State, plan: BuildPlan, weather: nat -> Weather, i: nat)
    requires i < |stages|
  {
    Selected(stages[i], plan) ==>
      ResultOf(stages[i], RunStage(stages[i], After(stages, s, plan, weather, i), plan, weather(i)).1).success
  }
}
