# branchswitch: the checksum-gated reinstall pipeline, in Dafny

`branchswitch <branch>` switches a git branch. It then re-runs the dependency
installer of every tracked manifest whose contents the switch changed. Four
manifests are registered (`requirements.txt`, `Gemfile.lock`, `yarn.lock`,
`db/structure.sql`), each paired with its install command. A run has four
phases:

1. Fingerprint each registered manifest, in registry order. Drop every
   manifest that cannot be read.
2. Run `git switch <branch>` once. If it fails, print the error and panic.
3. Re-fingerprint each remaining manifest. Run its install command only when
   the digest changed.
4. Collect every failed update, in order, and report them.

The model keeps this decision logic and puts everything effectful behind
oracles:

- **Files.** The working tree is a `FileSystem`, a map from path to either the
  file's bytes or the OS error that reading it raises. A path missing from the
  map is `NotFound`.
- **Digest.** SHA-1 is `System.sha1`, an arbitrary deterministic function of
  the bytes.
- **Running a command.** `System.exec` maps a command and the current file
  system to how the child ended (spawn failure, wait failure, or an exit
  status) and the file system it leaves. Every command therefore sees the
  files left by the previous ones. An install can change a manifest that is
  re-read later.
- **Trace.** Each run records an observable trace of `Event`s, in order:
  files read (`Read`), commands launched (`Launch`), and lines printed
  (`Say`, with an abstract `Line` value instead of the text).

Modules, one per file:

- `Results` (`results.dfy`): `Result`, plus the two collectors the source
  applies to iterators: `Oks` (`filter(is_ok).map(unwrap)`) and `Errs`
  (`filter(!is_ok).map(unwrap_err)`).
- `Env` (`env.dfy`): bytes, files, commands, child outcomes, and the `System`
  oracles.
- `Commands` (`commands.dfy`): `CommandError` and `Cmd::run`.
- `Trace` (`trace.dfy`): events, and `Launches`, the list of launched
  commands.
- `Dependencies` (`dependencies.dfy`): `DependencyDefinition`, `checksum`,
  `note_checksum`, and `update_dependencies_if_necessary`.
- `Pipeline` (`pipeline.dfy`): the registry, the four phases, the `Pipeline`
  function that specifies a whole run, and the imperative methods that model
  `main`.

Behaviour of the program worth noting:

- The report does not name the failing manifest.
- A `RunError` prints no detail at all.
- The only count printed besides the number of failures is the number of
  fingerprinted manifests, which is printed before the updates run.
- A failed switch prints the error's debug form and then panics. No failure
  report is produced.

## Model

| member | source | states |
|---|---|---|
| `Results.OksSelects` | src/main.rs:52-57 | The `is_ok`/`unwrap` chain keeps exactly the successful entries, in their original order. The k-th kept value is the value of the k-th `Ok`, and a position is kept exactly when its entry is an `Ok`. |
| `Results.ErrsSelects` | src/main.rs:69-74 | The `!is_ok`/`unwrap_err` chain keeps exactly the failed entries, in their original order. The k-th kept error is the error of the k-th `Err`, and a position is kept exactly when its entry is an `Err`. |
| `Commands.Run` | src/main.rs:123-136 | `Cmd::run` succeeds exactly on a successful exit status. Any other exit status, including death by a signal, gives `RunError`. A failed spawn or wait gives `IoError` carrying that OS error, through the `From<io::Error>` conversion. |
| `Dependencies.ChecksumOfManifest` | src/main.rs:96-105 | About `Checksum`, which models `checksum`. The checksum succeeds exactly when the manifest exists and can be read in full, and it is then the digest of all its bytes. Otherwise it fails with the error that the open or the read raised (`NotFound` for a missing file). |
| `Dependencies.ChecksumDeterministic` | src/main.rs:96-105 | About `Checksum`. The digest depends only on the manifest's own state. The same file state gives the same checksum result, whatever else differs. |
| `Dependencies.NoteChecksum` | src/main.rs:106-113 | `note_checksum` succeeds exactly when the checksum does. On success it holds an unchanged copy of the definition and that checksum. On failure it passes the same error on. |
| `Dependencies.UpdateGating` | src/main.rs:145-168 | About `UpdateIfNecessary`, which models `update_dependencies_if_necessary`. The update first re-reads the manifest. A read failure gives `IoError` with that error, launches nothing and changes no file. An unchanged digest gives `Ok(())` and launches nothing. A changed digest launches the install command exactly once, and the outcome is that command's own result. |
| `Dependencies.UpdateLaunchesAtMostInstall` | src/main.rs:146-154 | About `UpdateIfNecessary`. One update launches either nothing or exactly the manifest's own install command. |
| `Pipeline.PreChecksumKeepsReadable` | src/main.rs:50-57 | About `PreChecksum`, which models the chain at lines 52-57. The pre-switch filter keeps exactly the definitions whose checksum succeeded, in registry order. Each kept entry is the definition unchanged, paired with its own digest before the switch. |
| `Pipeline.UpdateAll` | src/main.rs:69-74 | The update phase yields exactly one outcome per fingerprinted manifest. A failure does not stop the manifests after it. |
| `Pipeline.UpdateAllExtend` | src/main.rs:69-74 | Processing the next manifest appends its own outcome, events and failure (if any) to those of the manifests before it. |
| `Pipeline.UpdateAllPrefix` | src/main.rs:69-74 | The outcomes and events of the first j updates are the start of those of the whole phase. Later manifests never change what earlier ones did. |
| `Pipeline.UpdatePhaseSteps` | src/main.rs:69-74 | The k-th outcome is the k-th manifest's own update, run on the files the first k updates left. Its events follow theirs in the trace. |
| `Pipeline.UpdateAllInstalls` | src/main.rs:69-74 | The update phase launches at most one command per fingerprinted manifest. Every command it launches is one of their install commands. |
| `Pipeline.UnchangedManifestsInstallNothing` | src/main.rs:146-149 | If every manifest's digest after the switch equals its digest before, the phase launches nothing, records no failure and leaves the files unchanged. |
| `Pipeline.FailuresInProcessingOrder` | src/main.rs:69-74 | The error list holds exactly the `Err` outcomes of the updates, in processing order, and is no longer than the list of fingerprinted manifests. |
| `Pipeline.Details` | src/main.rs:81-86 | After the summary, at most one line is printed per failure, and every such line is a printed line (nothing is launched). |
| `Pipeline.DetailsAppend` | src/main.rs:81-86 | The detail lines of two failure lists in a row are the detail lines of each, in order. |
| `Pipeline.DetailsOnlyForIoErrors` | src/main.rs:81-86 | Nothing is printed after the summary exactly when every failure is a `RunError`. A `RunError` prints nothing. |
| `Pipeline.ReportSummary` | src/main.rs:75-86 | About `Report`, which models lines 75-86 as a function. The report says "updated all successfully" exactly when the error list is empty. Otherwise it states the number of failures. It launches nothing. |
| `Pipeline.UpdateEach` | src/main.rs:69-74 | The loop over the fingerprinted manifests produces exactly the update phase's failures, events and final files. |
| `Pipeline.PrintReport` | src/main.rs:75-86 | The summary line, then the loop over the errors, print exactly the report: one detail line per `IoError`, in order. |
| `Pipeline.SwitchAndReinstall` | src/main.rs:18-86 | Running `main` on `Registry()` (the four manifests and install commands of lines 18-50) for a branch does exactly what the function `Pipeline` specifies for a whole run: its termination, its full trace and its final files. |
| `Pipeline.SwitchFailureStopsRun` | src/main.rs:59-67 | About `Pipeline`. The run panics exactly when the switch fails, and then with the switch's error. After the switch it only prints that error: no manifest is re-read and no install is launched. |
| `Pipeline.FinishedTraceLaunches` | src/main.rs:59-86 | In a trace shaped like a finished run, the only commands launched are the switch, followed by the update phase's launches. Reads and printed lines launch nothing. |
| `Pipeline.FinishedRunLaunches` | src/main.rs:59-74 | About `Pipeline`. A run whose switch succeeded launches the switch first, then exactly what the update phase launches. |
| `Pipeline.CompletedRunReportsEachFailure` | src/main.rs:59-79 | About `Pipeline`. A run whose switch succeeded, if it ends, ends with the update phase's failures as its error list. That list is no longer than the list of fingerprinted manifests, which is no longer than the registry. Besides the switch, which comes first, it launches at most one command per fingerprinted manifest. |
| `Pipeline.NothingChangedNothingInstalled` | src/main.rs:50-79 | About `Pipeline`. If the switch succeeds and leaves every manifest that was readable before it unchanged, the run finishes with no failures. It launches nothing but the switch, and ends by reporting that all updates succeeded. |

## Left out

- Command-line parsing and the usage message with exit status 1 when no branch is given (`src/main.rs:10-16`). The model starts from the branch name.
- Opening and reading files. These are the `FileSystem` map: a file's state is what reading it in full yields.
- The SHA-1 computation. `System.sha1` is an arbitrary function of the bytes. No property relies on its being collision-free, so "digest unchanged" is not claimed to mean "contents unchanged".
- Spawning a child process with inherited standard streams, and waiting for it. `System.exec` stands for both. The child's own output is not modelled, and a launch is recorded even when the spawn fails.
- `System.exec` may return a changed file system together with `SpawnFailed`, although a failed spawn starts no child and changes no file. This over-approximates the program, and no proved property relies on it.
- `System.exec` is a function. The model therefore assumes that the same command, run on the same files, behaves the same way. Real commands also depend on the network, the environment and the clock.
- A command that never exits. `System.exec` always returns, while the program waits on each child with no time-out (`src/main.rs:130`), so a switch or install that hangs hangs the tool.
- A `println!` that panics because standard output cannot be written. Every `Say` event succeeds in the model. So `Finished` means that the run ended without the switch panic, not that the run is sure to end.
- The `panic!` itself, which is the `Panicked` termination.
- The exact text of every `println!`. Each printed line is an abstract `Line` value. This includes the "checksum of … didn't match" notice, which is printed just before the install command runs.
