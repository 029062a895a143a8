/** How each stage ends, and what it takes to succeed, in terms of the tree before it and the faults it meets. */
module BuilderOutcomes {
  import opened Wrappers
  import opened BuilderModel
  import opened BuilderLaws

  // A file can be put there: no file stands where a directory is needed, and no directory where the file goes.
  predicate CanWrite(t: Tree, dir: Path, name: string) {
    !Blocked(t, dir) && !(dir + [name] in t && t[dir + [name]].Dir?)
  }

  lemma WriteEnds(t: Tree, dir: Path, name: string, content: Content, fault: Fault)
    ensures WriteFile(t, dir, name, content, fault).1 <==> CanWrite(t, dir, name) && fault.NoFault?
  {
    assert dir + [name] !in t ==> !(dir + [name] <= dir);
  }

  // Trees that agree along a path, except for new directories, block it alike.
  lemma BlockedAlong(t: Tree, t': Tree, path: Path)
    requires forall p :: p in t && p <= path ==> p in t' && t'[p] == t[p]
    requires forall p :: p in t' && p !in t && p <= path ==> t'[p] == Dir
    ensures Blocked(t', path) <==> Blocked(t, path)
  {
    assert forall i :: 0 <= i <= |path| ==> path[..i] <= path;
  }

  // ----- preparing -----

  // The root is free, and no file is in the way of the four directories.
  predicate CanPrepare(t: Tree, root: Path) {
    && !(root in t && (t[root].File? || Occupied(t, root)))
    && !Blocked(t, root + ["artifacts"]) && !Blocked(t, root + ["logs"])
    && !Blocked(t, root + ["metadata"]) && !Blocked(t, root + ["cache"])
  }

  predicate NoneStops(faults: (Fault, Fault, Fault, Fault)) {
    !faults.0.MkdirStops? && !faults.1.MkdirStops? && !faults.2.MkdirStops? && !faults.3.MkdirStops?
  }

  lemma StillBlocked(t: Tree, root: Path, name: string, fault: Fault, other: string)
    ensures Blocked(MakeDirectory(t, root + [name], fault).0, root + [other]) <==> Blocked(t, root + [other])
  {
    hide MakeDirectory, Blocked;
    MakeDirectoryFacts(t, root, name, fault);
    BlockedAlong(t, MakeDirectory(t, root + [name], fault).0, root + [other]);
  }

  lemma CreateEnds(t: Tree, root: Path, w: Weather)
    ensures var r := CreateWorkspace(t, root, w).1;
            && (r.Success? <==> !w.listingRaises && CanPrepare(t, root) && NoneStops(w.mkdirs))
            && (r == Failure(OsError) <==> w.listingRaises || (root in t && t[root].File?))
            && (r == Failure(NotEmpty) <==> !w.listingRaises && root in t && t[root].Dir? && Occupied(t, root))
            && (r.Failure? ==> r.error in {OsError, NotEmpty, CannotCreate})
  {
    hide MakeDirectory, Blocked, Occupied;
    MkdirFacts(t, root + ["artifacts"], w.mkdirs.0);
    var t0 := MakeDirectory(t, root + ["artifacts"], w.mkdirs.0).0;
    StillBlocked(t, root, "artifacts", w.mkdirs.0, "logs");
    StillBlocked(t, root, "artifacts", w.mkdirs.0, "metadata");
    StillBlocked(t, root, "artifacts", w.mkdirs.0, "cache");
    MkdirFacts(t0, root + ["logs"], w.mkdirs.1);
    var t1 := MakeDirectory(t0, root + ["logs"], w.mkdirs.1).0;
    StillBlocked(t0, root, "logs", w.mkdirs.1, "metadata");
    StillBlocked(t0, root, "logs", w.mkdirs.1, "cache");
    MkdirFacts(t1, root + ["metadata"], w.mkdirs.2);
    var t2 := MakeDirectory(t1, root + ["metadata"], w.mkdirs.2).0;
    StillBlocked(t1, root, "metadata", w.mkdirs.2, "cache");
    MkdirFacts(t2, root + ["cache"], w.mkdirs.3);
  }

  /** Preparing succeeds exactly on a free root with nothing in the way and no fault; it raises exactly when the root
      cannot be resolved, and otherwise fails with exit code 10. */
  lemma PrepareEndsExactly(s: State, plan: BuildPlan, w: Weather)
    ensures var outcome := RunStage(PrepareWorkspace, s, plan, w).1;
            && (outcome.Raised? <==> w.resolveRaises)
            && (Good(outcome) <==> && !w.resolveRaises && !w.listingRaises && CanPrepare(s.tree, plan.root)
                                   && NoneStops(w.mkdirs))
            && (outcome.Returned? && !Good(outcome) ==> outcome.result.exitCode == 10)
  {
    hide CreateWorkspace, CanPrepare;
    CreateEnds(s.tree, plan.root, w);
  }

  // ----- the manifest -----

  /** Writing the manifest succeeds exactly in a prepared workspace where the file can be put and no fault occurs; it
      never raises, and otherwise fails with exit code 30. */
  lemma ManifestEndsExactly(s: State, plan: BuildPlan, w: Weather)
    requires Placed(s, plan)
    ensures var outcome := RunStage(GenerateManifest, s, plan, w).1;
            && outcome.Returned?
            && (Good(outcome) <==> && s.workspace.Some? && w.manifestFault.NoFault?
                                   && CanWrite(s.tree, plan.root + ["metadata"], "manifest.json"))
            && (!Good(outcome) ==> outcome.result.exitCode == 30)
  {
    hide WriteFile, CanWrite;
    WriteEnds(s.tree, plan.root + ["metadata"], "manifest.json", Manifest(plan, s.artifacts, s.results),
        w.manifestFault);
  }

  // ----- finalizing -----

  predicate ProvenanceWritten(s: State, plan: BuildPlan, w: Weather) {
    w.provenanceFault.NoFault? && CanWrite(s.tree, plan.root + ["metadata"], "provenance.json")
  }

  predicate LogWritten(s: State, plan: BuildPlan, w: Weather) {
    w.logFault.NoFault? && CanWrite(s.tree, plan.root + ["logs"], "build.log")
  }

  // Whether the log can be written does not depend on the provenance record written before it.
  lemma LogBesideProvenance(t: Tree, root: Path, content: Content, fault: Fault)
    ensures var t' := WriteFile(t, root + ["metadata"], "provenance.json", content, fault).0;
            CanWrite(t', root + ["logs"], "build.log") <==> CanWrite(t, root + ["logs"], "build.log")
  {
    hide WriteFile, Blocked;
    var dir, logs := root + ["metadata"], root + ["logs"];
    var record, log := dir + ["provenance.json"], logs + ["build.log"];
    var t' := WriteFile(t, dir, "provenance.json", content, fault).0;
    WriteTextFacts(t, dir, "provenance.json", content, fault);
    Apart(root);
    assert forall p :: p in t && p <= logs ==> p in t' && t'[p] == t[p];
    assert forall p :: p in t' && p !in t && p <= logs ==> t'[p] == Dir;
    BlockedAlong(t, t', logs);
  }

  lemma Apart(root: Path)
    ensures var (record, log) := (root + ["metadata"] + ["provenance.json"], root + ["logs"] + ["build.log"]);
            !(record <= root + ["logs"]) && log != record && !(log <= root + ["metadata"])
  {
    assert (root + ["metadata"] + ["provenance.json"])[|root| + 1] == "provenance.json";
    assert (root + ["logs"] + ["build.log"])[|root| + 1] == "build.log";
    assert "provenance.json"[0] == 'p' && "build.log"[0] == 'b';
  }

  lemma CleanEnds(t: Tree, root: Path, w: Weather)
    ensures var r := CleanWorkspace(t, root, w).1;
            && (r.Success? <==> !w.cleanProbeRaises && (root !in t || (t[root].Dir? && w.spared.None?)))
            && (r.Failure? ==> r.error == if w.cleanProbeRaises then OsError else CannotClean)
  {
    hide RemoveTree;
    assert RemoveTree(t, root, w.spared).1 == w.spared.None? by { RemovalEnds(t, root, w.spared); }
  }

  lemma RemovalEnds(t: Tree, root: Path, spared: Option<set<Path>>)
    ensures RemoveTree(t, root, spared).1 == spared.None?
  {
  }

  /** Finalizing the plan's workspace raises when artifacts cannot be inspected, when the log cannot be written or when
      the root cannot be inspected; it fails with exit code 70 when the provenance cannot be written or the removal
      fails; otherwise it succeeds. The metadata is recorded unless it raised at the start, even if writing fails. */
  lemma FinalizeEndsExactly(s: State, plan: BuildPlan, w: Weather)
    requires s.workspace == Some(Layout(plan.root))
    ensures var (s', outcome) := RunStage(Finalize, s, plan, w);
            var (record, log) := (ProvenanceWritten(s, plan, w), LogWritten(s, plan, w));
            && (outcome.Raised?
                <==> || w.probeRaises || (record && !log)
                     || (record && log && !plan.keepWorkspace && w.cleanProbeRaises))
            && (Good(outcome)
                <==> && !w.probeRaises && record && log
                     && (plan.keepWorkspace || (!w.cleanProbeRaises && w.spared.None?)))
            && (outcome.Returned? && !Good(outcome) ==> outcome.result.exitCode == 70)
            && s'.metadata == if w.probeRaises then s.metadata else Some(w.metadata.(recipePath := plan.configPath))
  {
    hide WriteFile, CanWrite, CleanWorkspace, Grows, ContainedIn;
    var (dir, logs) := (plan.root + ["metadata"], plan.root + ["logs"]);
    var provenance := Provenance(w.metadata.(recipePath := plan.configPath));
    WriteEnds(s.tree, dir, "provenance.json", provenance, w.provenanceFault);
    var t1 := WriteFile(s.tree, dir, "provenance.json", provenance, w.provenanceFault).0;
    LogBesideProvenance(s.tree, plan.root, provenance, w.provenanceFault);
    WriteEnds(t1, logs, "build.log", BuildLog(s.results, |s.artifacts|), w.logFault);
    RecordsGrow(s, plan, w);
    CleanEnds(FinalizeRecords(s, plan, w).0.tree, plan.root, w);
  }
}
