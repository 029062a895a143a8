/** Which of the registered stages a plan runs, told by their names, and what a skipped one leaves alone. */
module BuilderSelection {
  import opened Text
  import opened BuilderModel
  import opened BuilderLaws

  // ----- names -----

  lemma StageNames(name: string, act: State -> (State, Outcome))
    ensures ValidateConfig.Name() == "validate-config" && PrepareWorkspace.Name() == "prepare-workspace"
    ensures GenerateManifest.Name() == "generate-manifest" && Finalize.Name() == "finalize"
    ensures Custom(name, act).Name() == name
  {
  }

  // The names a plan lets through, in the order they are registered in.
  function Filtered(names: seq<string>, wanted: seq<string>): seq<string> {
    if names == [] then []
    else
      var (front, last) := (names[..|names| - 1], names[|names| - 1]);
      Filtered(front, wanted) + if wanted == [] || last in wanted then [last] else []
  }

  function Registered(stages: seq<Stage>): seq<string> {
    seq(|stages|, i requires 0 <= i < |stages| => stages[i].Name())
  }

  function NamesOf(results: seq<StageResult>): seq<string> {
    seq(|results|, i requires 0 <= i < |results| => results[i].stageName)
  }

  // A stage that reports under its own name and leaves the recorded results alone, as the four concrete ones do.
  ghost predicate ReportsItself(stage: Stage) {
    LeavesResultsAlone(stage) &&
    (stage.Custom? ==> forall s :: stage.act(s).1.Returned? ==> stage.act(s).1.result.stageName == stage.name_)
  }

  lemma ReportedName(stage: Stage, s: State, plan: BuildPlan, w: Weather)
    requires ReportsItself(stage)
    ensures var (s', outcome) := RunStage(stage, s, plan, w);
            s'.results == s.results && ResultOf(stage, outcome).stageName == stage.Name()
  {
    hide RunStage;
    StageKeepsResults(stage, s, plan, w);
    if !stage.Custom? {
      ConcreteResult(stage, s, plan, w);
    } else {
      CustomName(stage, s, plan, w);
    }
  }

  lemma CustomName(stage: Stage, s: State, plan: BuildPlan, w: Weather)
    requires ReportsItself(stage) && stage.Custom?
    ensures ResultOf(stage, RunStage(stage, s, plan, w).1).stageName == stage.Name()
  {
  }

  /** The results a run appends carry the names of the registered stages, in registration order, filtered by the
      plan: all of them if it names none, otherwise exactly those it names. */
  lemma {:induction false} AppendedNames(stages: seq<Stage>, s: State, plan: BuildPlan, weather: nat -> Weather, n: nat)
    requires n <= |stages| && forall i :: 0 <= i < |stages| ==> ReportsItself(stages[i])
    ensures var results := After(stages, s, plan, weather, n).results;
            && s.results <= results
            && NamesOf(results[|s.results|..]) == Filtered(Registered(stages[..n]), plan.stages)
  {
    hide RunStage, ReportsItself;
    if n > 0 {
      AppendedNames(stages, s, plan, weather, n - 1);
      var (stage, before) := (stages[n - 1], After(stages, s, plan, weather, n - 1));
      ReportedName(stage, before, plan, weather(n - 1));
      var names := Registered(stages[..n]);
      assert names[..n - 1] == Registered(stages[..n - 1]) && names[n - 1] == stage.Name();
      var results := After(stages, s, plan, weather, n).results;
      if plan.stages == [] || stage.Name() in plan.stages {
        assert results[|s.results|..] == before.results[|s.results|..] + [results[|results| - 1]];
        assert NamesOf(results[|s.results|..]) == NamesOf(before.results[|s.results|..]) + [stage.Name()];
      }
    }
  }

  // ----- a run is the run of the stages the plan names -----

  // Those stages with what the world decides about them.
  function Chosen(stages: seq<Stage>, plan: BuildPlan, weather: nat -> Weather, n: nat): seq<(Stage, Weather)>
    requires n <= |stages|
  {
    if n == 0 then []
    else
      Chosen(stages, plan, weather, n - 1)
      + if plan.stages == [] || stages[n - 1].Name() in plan.stages then [(stages[n - 1], weather(n - 1))] else []
  }

  // Running every stage of a list, whatever its name, and appending its result.
  function RunEach(steps: seq<(Stage, Weather)>, s: State, plan: BuildPlan): State {
    if steps == [] then s
    else
      var ((stage, w), before) := (steps[|steps| - 1], RunEach(steps[..|steps| - 1], s, plan));
      var (after, outcome) := RunStage(stage, before, plan, w);
      after.(results := after.results
          + [if outcome.Returned? then outcome.result else StageResult(stage.Name(), false, 99, [])])
  }

  lemma RunNone(s: State, plan: BuildPlan)
    ensures RunEach([], s, plan) == s
  {
  }

  lemma RunOneMore(steps: seq<(Stage, Weather)>, stage: Stage, w: Weather, s: State, plan: BuildPlan)
    ensures var (after, outcome) := RunStage(stage, RunEach(steps, s, plan), plan, w);
            RunEach(steps + [(stage, w)], s, plan) == after.(results := after.results + [ResultOf(stage, outcome)])
  {
    hide RunStage;
    assert (steps + [(stage, w)])[..|steps|] == steps;
  }

  /** A stage the plan does not name leaves everything as it was, and the run is that of the others alone. */
  lemma {:induction false} RunsExactlyTheChosen(
    stages: seq<Stage>, s: State, plan: BuildPlan, weather: nat -> Weather, n: nat)
    requires n <= |stages|
    ensures After(stages, s, plan, weather, n) == RunEach(Chosen(stages, plan, weather, n), s, plan)
    ensures n > 0 && plan.stages != [] && stages[n - 1].Name() !in plan.stages ==>
              After(stages, s, plan, weather, n) == After(stages, s, plan, weather, n - 1)
  {
    hide RunStage, RunEach;
    RunNone(s, plan);
    if n > 0 {
      RunsExactlyTheChosen(stages, s, plan, weather, n - 1);
      RunOneMore(Chosen(stages, plan, weather, n - 1), stages[n - 1], weather(n - 1), s, plan);
      assert Chosen(stages, plan, weather, n - 1) + [] == Chosen(stages, plan, weather, n - 1);
    }
  }

  // ----- validation alone -----

  // The path names a YAML file: a directory, a stem of at least one character, and the suffix in any case.
  predicate YamlParts(path: string, dir: string, stem: string, ext: string) {
    && path == dir + stem + ext && (dir == "" || dir[|dir| - 1] == '/')
    && stem != "" && '/' !in stem && Lower(ext) in {".yaml", ".yml"}
  }

  lemma SuffixCharacters(ext: string)
    requires Lower(ext) in {".yaml", ".yml"}
    ensures |ext| > 1 && ext[0] == '.' && '.' !in ext[1..] && '/' !in ext
  {
    assert |Lower(ext)| == |ext| && forall i :: 0 <= i < |ext| ==> Lower(ext)[i] == LowerChar(ext[i]);
  }

  lemma {:induction false} AfterLastAt(a: string, c: char, b: string)
    requires c !in b
    ensures AfterLast(a + [c] + b, c) == b
  {
    if b == "" {
      assert a + [c] + b == a + [c];
    } else {
      assert (a + [c] + b)[..|a + [c] + b| - 1] == a + [c] + b[..|b| - 1];
      AfterLastAt(a, c, b[..|b| - 1]);
    }
  }

  lemma {:induction false} AfterLastSplits(s: string, c: char) returns (front: string)
    ensures s == front + AfterLast(s, c) && c !in AfterLast(s, c) && (front == "" || front[|front| - 1] == c)
  {
    if s == "" || s[|s| - 1] == c {
      front := s;
    } else {
      front := AfterLastSplits(s[..|s| - 1], c);
    }
  }

  lemma NameInDirectory(dir: string, name: string)
    requires (dir == "" || dir[|dir| - 1] == '/') && '/' !in name
    ensures FileName(dir + name) == name
  {
    if dir == "" {
      assert dir + name == name;
      var front := AfterLastSplits(name, '/');
    } else {
      var front := dir[..|dir| - 1];
      assert dir + name == front + ['/'] + name;
      AfterLastAt(front, '/', name);
    }
  }

  lemma StemAndSuffix(path: string) returns (stem: string)
    requires Suffix(path) != ""
    ensures FileName(path) == stem + Suffix(path) && stem != ""
  {
    hide AfterLast, FileName;
    var name := FileName(path);
    var front := AfterLastSplits(name, '.');
    stem := front[..|front| - 1];
    assert front == stem + ".";
  }

  lemma YamlNamed(path: string)
    ensures NamesYaml(path) <==> exists dir, stem, ext :: YamlParts(path, dir, stem, ext)
  {
    hide Lower, FileName, Suffix, AfterLast;
    if NamesYaml(path) {
      NoSuffix();
      var dir := AfterLastSplits(path, '/');
      NameIsAfterLast(path);
      var stem := StemAndSuffix(path);
      assert path == dir + stem + Suffix(path);
      assert '/' !in stem by { assert forall c :: c in stem ==> c in FileName(path); }
      assert YamlParts(path, dir, stem, Suffix(path));
    }
    forall dir, stem, ext | YamlParts(path, dir, stem, ext)
      ensures NamesYaml(path)
    {
      SuffixRead(dir, stem, ext);
    }
  }

  lemma NoSuffix()
    ensures Lower("") !in {".yaml", ".yml"}
  {
    assert |Lower("")| == 0;
  }

  lemma SuffixRead(dir: string, stem: string, ext: string)
    requires YamlParts(dir + stem + ext, dir, stem, ext)
    ensures Suffix(dir + stem + ext) == ext
  {
    hide AfterLast, Lower, FileName;
    SuffixCharacters(ext);
    assert dir + stem + ext == dir + (stem + ext);
    assert '/' !in stem + ext;
    NameInDirectory(dir, stem + ext);
    assert stem + ext == stem + ['.'] + ext[1..];
    AfterLastAt(stem, '.', ext[1..]);
  }

  lemma NameIsAfterLast(path: string)
    ensures FileName(path) == AfterLast(path, '/')
  {
  }

  /** Validation succeeds exactly when the file can be inspected, exists, is a regular file, is readable and has a
      YAML suffix; it never changes anything. */
  lemma ValidatesExactlyWhen(s: State, plan: BuildPlan, w: Weather)
    ensures var (s', outcome) := RunStage(ValidateConfig, s, plan, w);
            && s' == s && (outcome.Raised? <==> w.configProbeRaises)
            && (Good(outcome)
                <==> && !w.configProbeRaises && w.configExists && w.configIsFile && w.configReadable
                     && exists dir, stem, ext :: YamlParts(plan.configPath, dir, stem, ext))
  {
    YamlNamed(plan.configPath);
  }

  /** A plan that names validation alone runs nothing else: one result is appended and nothing else changes, whatever
      else is registered once. */
  lemma {:induction false} ValidationAlone(
    stages: seq<Stage>, s: State, plan: BuildPlan, weather: nat -> Weather, n: nat)
    requires plan.stages == ["validate-config"] && n <= |stages|
    requires forall i :: 0 <= i < |stages| ==> (stages[i].Name() == "validate-config" <==> i == 0)
    requires |stages| > 0 && stages[0].ValidateConfig?
    ensures n > 0 ==>
              exists r :: After(stages, s, plan, weather, n) == s.(results := s.results + [r])
                          && r.stageName == "validate-config" && r.exitCode in {0, 1, 99}
                          && (r.exitCode == 99 <==> weather(0).configProbeRaises)
  {
    hide RunStage;
    if n > 0 {
      var before := After(stages, s, plan, weather, n - 1);
      if n == 1 {
        ConcreteResult(ValidateConfig, s, plan, weather(0));
        ValidatesExactlyWhen(s, plan, weather(0));
        var r := ResultOf(ValidateConfig, RunStage(ValidateConfig, s, plan, weather(0)).1);
        assert After(stages, s, plan, weather, n) == s.(results := s.results + [r]);
      } else {
        ValidationAlone(stages, s, plan, weather, n - 1);
      }
    }
  }
}
