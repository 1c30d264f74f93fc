/**
 * What a run does that can be observed from outside, in order: the files it
 * reads, the commands it launches, and the lines it prints.
 */
module Trace {
  import opened Env
  import opened Commands

  /** A printed line, abstracted from its exact text. */
  datatype Line =
    | SwitchFailed(error: CommandError)  // the switch error, printed just before the run panics
    | FoundDefinitions(count: nat)        // how many manifests were fingerprinted
    | ChecksumChanged(file: Path)         // a manifest's fingerprint differs after the switch
    | UpdatedAll                          // the report when no update failed
    | FailedCount(count: nat)             // the report when some updates failed
    | ErrorDetail(cause: OsError)         // the detail printed for each `IoError`

  datatype Event = Read(path: Path) | Launch(cmd: Cmd) | Say(line: Line)

  /** The command an event launches, if any. */
  function Launched(e: Event): seq<Cmd>
  {
    if e.Launch? then [e.cmd] else []
  }

  /** The commands launched, in order. */
  function Launches(events: seq<Event>): (cmds: seq<Cmd>)
    ensures |cmds| <= |events|
  {
    if events == [] then [] else Launched(events[0]) + Launches(events[1..])
  }

  /** The commands launched by two consecutive stretches of a run. */
  lemma {:induction false} LaunchesAppend(a: seq<Event>, b: seq<Event>)
    ensures Launches(a + b) == Launches(a) + Launches(b)
  {
    if a == [] {
      assert a + b == b;
    } else {
      assert (a + b)[1..] == a[1..] + b;
      LaunchesAppend(a[1..], b);
    }
  }

  /** The commands launched by a run extended by one event. */
  lemma LaunchesSnoc(events: seq<Event>, e: Event)
    ensures Launches(events + [e]) == Launches(events) + Launched(e)
  {
    LaunchesAppend(events, [e]);
    assert [e][1..] == [];
  }

  /** Reading and printing launch nothing. */
  lemma {:induction false} NoLaunches(events: seq<Event>)
    requires forall j :: 0 <= j < |events| ==> !events[j].Launch?
    ensures Launches(events) == []
  {
    if events != [] {
      NoLaunches(events[1..]);
    }
  }
}
