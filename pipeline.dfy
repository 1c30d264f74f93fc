/**
 * The checksum-gated reinstall pipeline: fingerprint every registered
 * manifest, switch the branch, re-fingerprint each manifest that was read
 * and run its install command when its fingerprint changed, then report
 * every failed update.
 */
module Pipeline {
  import opened Results
  import opened Env
  import opened Commands
  import opened Trace
  import opened Dependencies

  /** The manifests the tool tracks, in the order it processes them. */
  function Registry(): seq<DependencyDefinition>
  {
    [
      DependencyDefinition("requirements.txt", Cmd("pip", ["install", "-r", "requirements.txt"])),
      DependencyDefinition("Gemfile.lock", Cmd("bundle", ["install"])),
      DependencyDefinition("yarn.lock", Cmd("yarn", ["install"])),
      DependencyDefinition("db/structure.sql", Cmd("bundle", ["exec", "rails", "db:migrate"]))
    ]
  }

  function SwitchCommand(branch: string): Cmd
  {
    Cmd("git", ["switch", branch])
  }

  // ---------------------------------------------------------------------------
  // Phase 1: fingerprint every manifest before the switch

  /** `note_checksum` of every definition, in order. */
  function Notes(defs: seq<DependencyDefinition>, sys: System, fs: FileSystem): seq<Result<Checksummed, OsError>>
  {
    seq(|defs|, i requires 0 <= i < |defs| => NoteChecksum(defs[i], sys, fs))
  }

  /** The definitions whose manifest could be read, each with its digest. */
  function PreChecksum(defs: seq<DependencyDefinition>, sys: System, fs: FileSystem): seq<Checksummed>
  {
    Oks(Notes(defs, sys, fs))
  }

  /** Phase 1 attempts to read every manifest, in order. */
  function PreReads(defs: seq<DependencyDefinition>): seq<Event>
  {
    seq(|defs|, i requires 0 <= i < |defs| => Read(defs[i].file))
  }

  /**
   * The pre-switch filter keeps exactly the definitions whose checksum
   * succeeded, in registry order; each kept entry carries the definition
   * unchanged and that definition's own digest.
   */
  lemma PreChecksumKeepsReadable(defs: seq<DependencyDefinition>, sys: System, fs: FileSystem)
    ensures var cs, idx := PreChecksum(defs, sys, fs), OkIndices(Notes(defs, sys, fs));
      && |idx| == |cs| <= |defs|
      && StrictlyIncreasing(idx)
      && (forall k :: 0 <= k < |cs| ==>
            && idx[k] < |defs|
            && cs[k].definition == defs[idx[k]]
            && Checksum(defs[idx[k]], sys, fs) == Ok(cs[k].checksumBeforeSwitch))
      && (forall i :: 0 <= i < |defs| ==> (Checksum(defs[i], sys, fs).Ok? <==> i in idx))
  {
    OksSelects(Notes(defs, sys, fs));
  }

  // ---------------------------------------------------------------------------
  // Phase 3: re-fingerprint and update, manifest by manifest

  /** The outcomes of a run of updates, what they did, and the file system they leave. */
  datatype Phase = Phase(outcomes: seq<Result<(), CommandError>>, events: seq<Event>, after: FileSystem)

  /** Every manifest's update in turn, each seeing the files the previous ones left. */
  function UpdateAll(cs: seq<Checksummed>, sys: System, fs: FileSystem): (p: Phase)
    ensures |p.outcomes| == |cs|
  {
    if cs == [] then Phase([], [], fs)
    else
      var done := UpdateAll(cs[..|cs| - 1], sys, fs);
      var s := UpdateIfNecessary(cs[|cs| - 1], sys, done.after);
      Phase(done.outcomes + [s.outcome], done.events + s.events, s.after)
  }

  /** Processing one more manifest extends the outcomes, the events and the error list by its own. */
  lemma UpdateAllExtend(cs: seq<Checksummed>, sys: System, fs: FileSystem, i: nat)
    requires i < |cs|
    ensures var p := UpdateAll(cs[..i], sys, fs);
      var s := UpdateIfNecessary(cs[i], sys, p.after);
      && UpdateAll(cs[..i + 1], sys, fs) == Phase(p.outcomes + [s.outcome], p.events + s.events, s.after)
      && Errs(p.outcomes + [s.outcome]) == Errs(p.outcomes) + (if s.outcome.Err? then [s.outcome.error] else [])
  {
    assert cs[..i + 1][..i] == cs[..i];
    var p := UpdateAll(cs[..i], sys, fs);
    var s := UpdateIfNecessary(cs[i], sys, p.after);
    assert (p.outcomes + [s.outcome])[..i] == p.outcomes;
  }

  /** The updates of a prefix are the beginning of the updates of the whole. */
  lemma {:induction false} UpdateAllPrefix(cs: seq<Checksummed>, sys: System, fs: FileSystem, j: nat)
    requires j <= |cs|
    ensures var p, q := UpdateAll(cs, sys, fs), UpdateAll(cs[..j], sys, fs);
      q.outcomes == p.outcomes[..j] && q.events <= p.events
    decreases |cs|
  {
    if j == |cs| {
      assert cs[..j] == cs;
    } else {
      var n := |cs| - 1;
      assert cs[..n][..j] == cs[..j];
      UpdateAllPrefix(cs[..n], sys, fs, j);
      var p, done := UpdateAll(cs, sys, fs), UpdateAll(cs[..n], sys, fs);
      var s := UpdateIfNecessary(cs[n], sys, done.after);
      assert p.outcomes == done.outcomes + [s.outcome] && p.events == done.events + s.events;
      assert p.outcomes[..j] == done.outcomes[..j];
    }
  }

  /**
   * Each manifest is processed whatever happened to the ones before it: the
   * k-th outcome is the k-th manifest's own update, run on the files left by
   * the first k updates, and that update's events follow theirs in the run.
   */
  lemma UpdatePhaseSteps(cs: seq<Checksummed>, sys: System, fs: FileSystem, k: nat)
    requires k < |cs|
    ensures var before := UpdateAll(cs[..k], sys, fs);
      var s := UpdateIfNecessary(cs[k], sys, before.after);
      && UpdateAll(cs, sys, fs).outcomes[k] == s.outcome
      && before.events + s.events <= UpdateAll(cs, sys, fs).events
  {
    UpdateAllExtend(cs, sys, fs, k);
    UpdateAllPrefix(cs, sys, fs, k + 1);
  }

  /** The update phase launches at most one command per manifest, each one an install command. */
  lemma {:induction false} UpdateAllInstalls(cs: seq<Checksummed>, sys: System, fs: FileSystem)
    ensures var launched := Launches(UpdateAll(cs, sys, fs).events);
      && |launched| <= |cs|
      && forall j :: 0 <= j < |launched| ==> exists k :: 0 <= k < |cs| && launched[j] == cs[k].definition.installCmd
  {
    if cs != [] {
      var n := |cs| - 1;
      var done := UpdateAll(cs[..n], sys, fs);
      var s := UpdateIfNecessary(cs[n], sys, done.after);
      UpdateAllInstalls(cs[..n], sys, fs);
      UpdateLaunchesAtMostInstall(cs[n], sys, done.after);
      LaunchesAppend(done.events, s.events);
      var earlier, own := Launches(done.events), Launches(s.events);
      var launched := Launches(UpdateAll(cs, sys, fs).events);
      assert launched == earlier + own;
      forall j | 0 <= j < |launched|
        ensures exists k :: 0 <= k < |cs| && launched[j] == cs[k].definition.installCmd
      {
        if j < |earlier| {
          var k :| 0 <= k < n && earlier[j] == cs[..n][k].definition.installCmd;
          assert launched[j] == cs[k].definition.installCmd;
        } else {
          assert launched[j] == cs[n].definition.installCmd;
        }
      }
    }
  }

  /** When no manifest changed, no update launches anything or fails, and the files stay as they were. */
  lemma {:induction false} UnchangedManifestsInstallNothing(cs: seq<Checksummed>, sys: System, fs: FileSystem)
    requires forall k :: 0 <= k < |cs| ==> Checksum(cs[k].definition, sys, fs) == Ok(cs[k].checksumBeforeSwitch)
    ensures var p := UpdateAll(cs, sys, fs);
      p.after == fs && Launches(p.events) == [] && Errs(p.outcomes) == []
  {
    if cs != [] {
      var n := |cs| - 1;
      UnchangedManifestsInstallNothing(cs[..n], sys, fs);
      var done := UpdateAll(cs[..n], sys, fs);
      UpdateGating(cs[n], sys, done.after);
      LaunchesAppend(done.events, UpdateIfNecessary(cs[n], sys, done.after).events);
      UpdateAllExtend(cs, sys, fs, n);
      assert cs[..n + 1] == cs;
    }
  }

  // ---------------------------------------------------------------------------
  // Phase 4: the report

  /** What one failure prints after the summary. */
  function DetailLine(e: CommandError): seq<Event>
  {
    if e.IoError? then [Say(ErrorDetail(e.cause))] else []
  }

  /** One detail line per `IoError`, in order; a `RunError` prints nothing. */
  function Details(errors: seq<CommandError>): (lines: seq<Event>)
    ensures |lines| <= |errors|
    ensures forall j :: 0 <= j < |lines| ==> lines[j].Say?
  {
    if errors == [] then [] else DetailLine(errors[0]) + Details(errors[1..])
  }

  /** Details of two lists of failures one after the other. */
  lemma {:induction false} DetailsAppend(a: seq<CommandError>, b: seq<CommandError>)
    ensures Details(a + b) == Details(a) + Details(b)
  {
    if a == [] {
      assert a + b == b;
    } else {
      assert (a + b)[1..] == a[1..] + b;
      DetailsAppend(a[1..], b);
    }
  }

  /** Nothing beyond the summary is printed exactly when every failure is a `RunError`. */
  lemma {:induction false} DetailsOnlyForIoErrors(errors: seq<CommandError>)
    ensures Details(errors) == [] <==> forall i :: 0 <= i < |errors| ==> errors[i] == RunError
  {
    if errors != [] {
      DetailsOnlyForIoErrors(errors[1..]);
      assert forall i :: 1 <= i < |errors| ==> errors[1..][i - 1] == errors[i];
    }
  }

  /** The summary line, then the details. */
  function Report(errors: seq<CommandError>): seq<Event>
  {
    [Say(if |errors| == 0 then UpdatedAll else FailedCount(|errors|))] + Details(errors)
  }

  /**
   * The report says "all successful" exactly when nothing failed, otherwise
   * it gives the number of failures; it launches nothing.
   */
  lemma ReportSummary(errors: seq<CommandError>)
    ensures Report(errors)[0] == Say(UpdatedAll) <==> errors == []
    ensures errors != [] ==> Report(errors)[0] == Say(FailedCount(|errors|))
    ensures |Report(errors)| <= 1 + |errors|
    ensures Launches(Report(errors)) == []
  {
    NoLaunches(Report(errors));
  }

  // ---------------------------------------------------------------------------
  // The whole run

  /** A run either panics at the switch or finishes with the list of failed updates. */
  datatype Termination = Panicked(switchError: CommandError) | Finished(errors: seq<CommandError>)

  datatype Execution = Execution(termination: Termination, trace: seq<Event>, after: FileSystem)

  /** What a run on `defs` does, phase by phase. */
  function Pipeline(defs: seq<DependencyDefinition>, branch: string, sys: System, fs0: FileSystem): Execution
  {
    var cs := PreChecksum(defs, sys, fs0);
    var switch := SwitchCommand(branch);
    var eff := sys.exec(switch, fs0);
    var head := PreReads(defs) + [Launch(switch)];
    match Run(eff.child)
    case Err(e) =>
      Execution(Panicked(e), head + [Say(SwitchFailed(e))], eff.after)
    case Ok(_) =>
      var p := UpdateAll(cs, sys, eff.after);
      var errors := Errs(p.outcomes);
      Execution(Finished(errors), head + [Say(FoundDefinitions(|cs|))] + p.events + Report(errors), p.after)
  }

  /**
   * Phase 3 as the tool runs it: each fingerprinted manifest in turn is
   * updated if necessary, its events appended to the trace, and its failure,
   * if any, appended to the error list.
   */
  method UpdateEach(checksummed: seq<Checksummed>, sys: System, fs0: FileSystem)
    returns (errors: seq<CommandError>, events: seq<Event>, fs: FileSystem)
    ensures var p := UpdateAll(checksummed, sys, fs0);
      errors == Errs(p.outcomes) && events == p.events && fs == p.after
  {
    errors, events, fs := [], [], fs0;
    var i := 0;
    while i < |checksummed|
      invariant 0 <= i <= |checksummed|
      invariant var p := UpdateAll(checksummed[..i], sys, fs0);
        errors == Errs(p.outcomes) && events == p.events && fs == p.after
    {
      UpdateAllExtend(checksummed, sys, fs0, i);
      var step := UpdateIfNecessary(checksummed[i], sys, fs);
      events := events + step.events;
      fs := step.after;
      if step.outcome.Err? {
        errors := errors + [step.outcome.error];
      }
      i := i + 1;
    }
    assert checksummed[..i] == checksummed;
  }

  /** Phase 4 as the tool runs it: the summary line, then one line per `IoError`. */
  method PrintReport(errors: seq<CommandError>) returns (lines: seq<Event>)
    ensures lines == Report(errors)
  {
    if |errors| == 0 {
      lines := [Say(UpdatedAll)];
    } else {
      lines := [Say(FailedCount(|errors|))];
    }
    ghost var summary := lines;
    var j := 0;
    while j < |errors|
      invariant 0 <= j <= |errors|
      invariant lines == summary + Details(errors[..j])
    {
      DetailsAppend(errors[..j], [errors[j]]);
      assert errors[..j] + [errors[j]] == errors[..j + 1];
      match errors[j] {
        case IoError(e) => lines := lines + [Say(ErrorDetail(e))];
        case RunError =>
      }
      j := j + 1;
    }
    assert errors[..j] == errors;
  }

  /**
   * The tool's entry point for a given branch: the registry is fingerprinted,
   * the branch switched, every fingerprinted manifest updated if necessary,
   * and the failures collected and reported.
   */
  method SwitchAndReinstall(branch: string, sys: System, fs0: FileSystem)
    returns (termination: Termination, trace: seq<Event>, fs: FileSystem)
    ensures Execution(termination, trace, fs) == Pipeline(Registry(), branch, sys, fs0)
  {
    var definitions := Registry();
    var checksummed := PreChecksum(definitions, sys, fs0);
    trace := PreReads(definitions);

    var switch := SwitchCommand(branch);
    var eff := sys.exec(switch, fs0);
    trace := trace + [Launch(switch)];
    fs := eff.after;
    var switched := Run(eff.child);
    if switched.Err? {
      trace := trace + [Say(SwitchFailed(switched.error))];
      termination := Panicked(switched.error);
      return;
    }
    trace := trace + [Say(FoundDefinitions(|checksummed|))];

    var errors, events;
    errors, events, fs := UpdateEach(checksummed, sys, fs);
    trace := trace + events;
    var report := PrintReport(errors);
    trace := trace + report;
    termination := Finished(errors);
  }

  /**
   * A failed switch stops the run: it panics with the switch's error, and
   * after the switch nothing is read and nothing is launched; otherwise the
   * run finishes.
   */
  lemma SwitchFailureStopsRun(defs: seq<DependencyDefinition>, branch: string, sys: System, fs0: FileSystem)
    ensures var x, switched := Pipeline(defs, branch, sys, fs0), Run(sys.exec(SwitchCommand(branch), fs0).child);
      && (x.termination.Panicked? <==> switched.Err?)
      && (switched.Err? ==>
            && x.termination.switchError == switched.error
            && x.trace == PreReads(defs) + [Launch(SwitchCommand(branch)), Say(SwitchFailed(switched.error))]
            && Launches(x.trace) == [SwitchCommand(branch)])
  {
    var switch := SwitchCommand(branch);
    var switched := Run(sys.exec(switch, fs0).child);
    if switched.Err? {
      var tail := [Launch(switch), Say(SwitchFailed(switched.error))];
      NoLaunches(PreReads(defs));
      LaunchesAppend(PreReads(defs), tail);
      LaunchesSnoc([Launch(switch)], Say(SwitchFailed(switched.error)));
      assert [Launch(switch)] + [Say(SwitchFailed(switched.error))] == tail;
      assert PreReads(defs) + [Launch(switch)] + [Say(SwitchFailed(switched.error))] == PreReads(defs) + tail;
    }
  }

  /**
   * The failures of the update phase are exactly its `Err` outcomes, in
   * processing order, and there are no more of them than manifests.
   */
  lemma FailuresInProcessingOrder(cs: seq<Checksummed>, sys: System, fs: FileSystem)
    ensures var outcomes := UpdateAll(cs, sys, fs).outcomes;
      var errors, idx := Errs(outcomes), ErrIndices(outcomes);
      && |idx| == |errors| <= |cs|
      && StrictlyIncreasing(idx)
      && (forall k :: 0 <= k < |idx| ==> idx[k] < |cs| && outcomes[idx[k]] == Err(errors[k]))
      && (forall i :: 0 <= i < |cs| ==> (outcomes[i].Err? <==> i in idx))
  {
    ErrsSelects(UpdateAll(cs, sys, fs).outcomes);
  }

  /** The launches of a trace shaped like that of a finished run. */
  lemma FinishedTraceLaunches(fingerprinting: seq<Event>, switch: Cmd, found: nat, events: seq<Event>, errors: seq<CommandError>)
    requires forall j :: 0 <= j < |fingerprinting| ==> !fingerprinting[j].Launch?
    ensures Launches(fingerprinting + [Launch(switch)] + [Say(FoundDefinitions(found))] + events + Report(errors))
      == [switch] + Launches(events)
  {
    var t1 := fingerprinting + [Launch(switch)];
    var t2 := t1 + [Say(FoundDefinitions(found))];
    var t3 := t2 + events;
    NoLaunches(fingerprinting);
    LaunchesSnoc(fingerprinting, Launch(switch));
    LaunchesSnoc(t1, Say(FoundDefinitions(found)));
    assert Launches(t2) == [switch];
    LaunchesAppend(t2, events);
    ReportSummary(errors);
    LaunchesAppend(t3, Report(errors));
  }

  /** A run whose switch succeeded launches the switch, then whatever the update phase launches. */
  lemma FinishedRunLaunches(defs: seq<DependencyDefinition>, branch: string, sys: System, fs0: FileSystem)
    requires Run(sys.exec(SwitchCommand(branch), fs0).child).Ok?
    ensures var cs := PreChecksum(defs, sys, fs0);
      var p := UpdateAll(cs, sys, sys.exec(SwitchCommand(branch), fs0).after);
      Launches(Pipeline(defs, branch, sys, fs0).trace) == [SwitchCommand(branch)] + Launches(p.events)
  {
    var cs := PreChecksum(defs, sys, fs0);
    var p := UpdateAll(cs, sys, sys.exec(SwitchCommand(branch), fs0).after);
    FinishedTraceLaunches(PreReads(defs), SwitchCommand(branch), |cs|, p.events, Errs(p.outcomes));
  }

  /**
   * A run whose switch succeeded finishes, with the failures of its update
   * phase as the error list; there are no more failures than fingerprinted
   * manifests, and apart from the switch, which comes first, it launches at
   * most one install command per fingerprinted manifest.
   */
  lemma CompletedRunReportsEachFailure(defs: seq<DependencyDefinition>, branch: string, sys: System, fs0: FileSystem)
    requires Run(sys.exec(SwitchCommand(branch), fs0).child).Ok?
    ensures var x, cs := Pipeline(defs, branch, sys, fs0), PreChecksum(defs, sys, fs0);
      var p := UpdateAll(cs, sys, sys.exec(SwitchCommand(branch), fs0).after);
      && x.termination == Finished(Errs(p.outcomes))
      && |Errs(p.outcomes)| <= |cs| <= |defs|
      && [SwitchCommand(branch)] <= Launches(x.trace)
      && |Launches(x.trace)| <= 1 + |cs|
  {
    var cs := PreChecksum(defs, sys, fs0);
    var fs1 := sys.exec(SwitchCommand(branch), fs0).after;
    PreChecksumKeepsReadable(defs, sys, fs0);
    UpdateAllInstalls(cs, sys, fs1);
    FinishedRunLaunches(defs, branch, sys, fs0);
  }

  /**
   * If the switch succeeds and leaves every manifest that was readable before
   * it with the same contents, the run finishes without failures, launches
   * nothing but the switch and ends by reporting that all updates succeeded.
   */
  lemma NothingChangedNothingInstalled(defs: seq<DependencyDefinition>, branch: string, sys: System, fs0: FileSystem)
    requires Run(sys.exec(SwitchCommand(branch), fs0).child).Ok?
    requires forall i :: 0 <= i < |defs| && ReadToEnd(fs0, defs[i].file).Ok? ==>
      ReadToEnd(sys.exec(SwitchCommand(branch), fs0).after, defs[i].file) == ReadToEnd(fs0, defs[i].file)
    ensures var x := Pipeline(defs, branch, sys, fs0);
      && x.termination == Finished([])
      && Launches(x.trace) == [SwitchCommand(branch)]
      && x.trace[|x.trace| - 1] == Say(UpdatedAll)
  {
    var cs := PreChecksum(defs, sys, fs0);
    var fs1 := sys.exec(SwitchCommand(branch), fs0).after;
    PreChecksumKeepsReadable(defs, sys, fs0);
    var idx := OkIndices(Notes(defs, sys, fs0));
    forall k | 0 <= k < |cs|
      ensures Checksum(cs[k].definition, sys, fs1) == Ok(cs[k].checksumBeforeSwitch)
    {
      var d := defs[idx[k]];
      assert ReadToEnd(fs0, d.file).Ok?;
      assert ReadToEnd(fs1, d.file) == ReadToEnd(fs0, d.file);
    }
    UnchangedManifestsInstallNothing(cs, sys, fs1);
    FinishedRunLaunches(defs, branch, sys, fs0);
  }
}
