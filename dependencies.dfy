/**
 * A dependency manifest and the command that brings the installed
 * dependencies back in line with it, fingerprinted before the branch switch
 * and updated after it when its fingerprint changed.
 */
module Dependencies {
  import opened Results
  import opened Env
  import opened Commands
  import opened Trace

  /** A manifest file paired with its install command. */
  datatype DependencyDefinition = DependencyDefinition(file: Path, installCmd: Cmd)

  /** A definition together with the digest its manifest had before the switch. */
  datatype Checksummed = Checksummed(definition: DependencyDefinition, checksumBeforeSwitch: Digest)

  /**
   * The SHA-1 digest of the whole manifest, or the error that opening or
   * reading it raised.
   */
  function Checksum(d: DependencyDefinition, sys: System, fs: FileSystem): Result<Digest, OsError>
  {
    match ReadToEnd(fs, d.file)
    case Ok(bytes) => Ok(sys.sha1(bytes))
    case Err(e) => Err(e)
  }

  /**
   * The checksum succeeds exactly when the manifest exists and can be read in
   * full, and is then the digest of all its bytes; otherwise it fails with the
   * error the open or the read raised.
   */
  lemma ChecksumOfManifest(d: DependencyDefinition, sys: System, fs: FileSystem)
    ensures var r := Checksum(d, sys, fs);
      && (r.Ok? <==> d.file in fs && fs[d.file].Contents?)
      && (r.Ok? ==> r.value == sys.sha1(fs[d.file].bytes))
      && (d.file !in fs ==> r == Err(NotFound))
      && (d.file in fs && fs[d.file].Unreadable? ==> r == Err(fs[d.file].error))
  {
  }

  /** The digest depends on nothing but the manifest's own state. */
  lemma ChecksumDeterministic(d: DependencyDefinition, sys: System, fs1: FileSystem, fs2: FileSystem)
    requires d.file in fs1 <==> d.file in fs2
    requires d.file in fs1 ==> fs1[d.file] == fs2[d.file]
    ensures Checksum(d, sys, fs1) == Checksum(d, sys, fs2)
  {
  }

  /**
   * `note_checksum`: on success, an unchanged copy of the definition with
   * its current digest; on failure, the read error.
   */
  function NoteChecksum(d: DependencyDefinition, sys: System, fs: FileSystem): (r: Result<Checksummed, OsError>)
    ensures r.Ok? <==> Checksum(d, sys, fs).Ok?
    ensures r.Ok? ==> r.value.definition == d && r.value.checksumBeforeSwitch == Checksum(d, sys, fs).value
    ensures r.Err? ==> r.error == Checksum(d, sys, fs).error
  {
    match Checksum(d, sys, fs)
    case Ok(digest) => Ok(Checksummed(d, digest))
    case Err(e) => Err(e)
  }

  /** One manifest's update: its outcome, what it did, and the file system afterwards. */
  datatype Step = Step(outcome: Result<(), CommandError>, events: seq<Event>, after: FileSystem)

  /**
   * `update_dependencies_if_necessary`: re-read the manifest and, when its
   * digest changed, announce it and run the install command.
   */
  function UpdateIfNecessary(c: Checksummed, sys: System, fs: FileSystem): Step
  {
    var d := c.definition;
    match Checksum(d, sys, fs)
    case Err(e) => Step(Err(IoError(e)), [Read(d.file)], fs)
    case Ok(digest) =>
      if digest == c.checksumBeforeSwitch then Step(Ok(()), [Read(d.file)], fs)
      else
        var eff := sys.exec(d.installCmd, fs);
        Step(Run(eff.child), [Read(d.file), Say(ChecksumChanged(d.file)), Launch(d.installCmd)], eff.after)
  }

  /**
   * The gating rule: the update first re-reads the manifest; a read failure
   * is this manifest's `IoError` and nothing runs; an unchanged digest is a
   * success and nothing runs; a changed digest runs the install command
   * exactly once, and its result is the update's outcome.
   */
  lemma UpdateGating(c: Checksummed, sys: System, fs: FileSystem)
    ensures var s, now := UpdateIfNecessary(c, sys, fs), Checksum(c.definition, sys, fs);
      && [Read(c.definition.file)] <= s.events
      && (now.Err? ==>
            s.outcome == Err(IoError(now.error)) && Launches(s.events) == [] && s.after == fs)
      && (now == Ok(c.checksumBeforeSwitch) ==>
            s.outcome == Ok(()) && Launches(s.events) == [] && s.after == fs)
      && (now.Ok? && now.value != c.checksumBeforeSwitch ==>
            var eff := sys.exec(c.definition.installCmd, fs);
            && Launches(s.events) == [c.definition.installCmd]
            && s.outcome == Run(eff.child)
            && s.after == eff.after)
  {
    var d := c.definition;
    var s := UpdateIfNecessary(c, sys, fs);
    NoLaunches([Read(d.file)]);
    NoLaunches([Read(d.file), Say(ChecksumChanged(d.file))]);
    LaunchesSnoc([Read(d.file), Say(ChecksumChanged(d.file))], Launch(d.installCmd));
    assert [Read(d.file), Say(ChecksumChanged(d.file))] + [Launch(d.installCmd)]
      == [Read(d.file), Say(ChecksumChanged(d.file)), Launch(d.installCmd)];
  }

  /** An update launches the manifest's install command or nothing. */
  lemma UpdateLaunchesAtMostInstall(c: Checksummed, sys: System, fs: FileSystem)
    ensures Launches(UpdateIfNecessary(c, sys, fs).events) <= [c.definition.installCmd]
  {
    UpdateGating(c, sys, fs);
  }
}
