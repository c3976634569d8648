/** The updater's status document: what a check and an install recorder write to it. */
module UpdateStatus {
  import opened Wrappers
  import opened AtomicWrite
  import opened Bytes
  import opened Timestamps
  import opened Whitespace

  datatype InstallState = Idle | Running | Success | Failed

  datatype Status = Status(
    supported: bool,
    installedCommit: Option<string>,
    availableCommit: Option<string>,
    updateAvailable: bool,
    workingTreeDirty: bool,
    checkedAt: Option<bytes>,
    checkError: Option<string>,
    installState: InstallState,
    installStartedAt: Option<bytes>,
    installFinishedAt: Option<bytes>,
    installError: Option<string>)

  const EMPTY_STATUS := Status(true, None, None, false, false, None, None, Idle, None, None, None)

  const STOPPED := "Update stopped before completion. Check the Pi logs before retrying."
  const UNREACHABLE := "Could not reach GitHub. The next check will retry."
  const FAILED := "Update failed. Check the Pi logs before retrying."

  /** The three answers of git, each trimmed; a command that fails has none. */
  datatype Git = Git(head: Option<string>, remote: Option<string>, changes: Option<string>)

  /** The lock that serializes the writers of the document. */
  datatype CheckLock = Acquired | Busy | Unusable

  datatype Command = InstallStart | InstallSucceeded | InstallFailed

  // ---------------------------------------------------------------------------------------------
  // Commit names
  // ---------------------------------------------------------------------------------------------

  predicate IsCommit(text: string) {
    |text| == 40 && forall c <- text :: '0' <= c <= '9' || 'a' <= c <= 'f'
  }

  datatype Commits = Commits(installed: string, available: string, dirty: bool)

  /** What a look at the checkout and the remote finds, or nothing when any part of it fails. */
  function Look(git: Git): Option<Commits> {
    if git.head.None? || git.remote.None? then None
    else
      var words := Words(git.remote.value);
      if words == [] || !IsCommit(words[0]) || git.changes.None? then None
      else Some(Commits(git.head.value, words[0], exists c <- git.changes.value :: !IsWhitespace(c)))
  }

  // ---------------------------------------------------------------------------------------------
  // The documents that an operation writes
  // ---------------------------------------------------------------------------------------------

  /** A missing, damaged or unreadable document counts as empty. */
  function Loaded(stored: Option<Status>, readable: bool): Status {
    if readable && stored.Some? then stored.value else EMPTY_STATUS
  }

  function Kept(status: Status, write: Write): seq<Status> {
    if write.Refused? then [] else [status]
  }

  function Interrupted(status: Status, now: Elapsed): Status {
    status.(installState := Failed, installFinishedAt := Some(Timestamp(now)), installError := Some(STOPPED))
  }

  function Looked(status: Status, now: Elapsed, found: Option<Commits>): Status {
    match found
    case Some(commits) =>
      var newer := commits.available != commits.installed;
      status.(supported := true, installedCommit := Some(commits.installed),
              availableCommit := if newer then Some(commits.available) else None, updateAvailable := newer,
              workingTreeDirty := commits.dirty, checkedAt := Some(Timestamp(now)), checkError := None)
    case None =>
      status.(supported := true, checkedAt := Some(Timestamp(now)), checkError := Some(UNREACHABLE))
  }

  /** What a check runs into: the two locks, git, and how its two possible writes end. */
  datatype Scene = Scene(lock: CheckLock, installing: bool, readable: bool, git: Git, repair: Write, report: Write)

  function CheckWrites(stored: Option<Status>, now: Elapsed, scene: Scene): seq<Status> {
    var status := Loaded(stored, scene.readable);
    if !scene.lock.Acquired? || (status.installState.Running? && scene.installing) then []
    else if !status.installState.Running? then Kept(Looked(status, now, Look(scene.git)), scene.report)
    else
      var stopped := Interrupted(status, now);
      Kept(stopped, scene.repair)
      + (if scene.repair.Saved? then Kept(Looked(stopped, now, Look(scene.git)), scene.report) else [])
  }

  predicate CheckSucceeds(stored: Option<Status>, scene: Scene) {
    var running := Loaded(stored, scene.readable).installState.Running?;
    match scene.lock
    case Unusable => false
    case Busy => true
    case Acquired => (running && scene.installing) || ((running ==> scene.repair.Saved?) && scene.report.Saved?)
  }

  /** The document that records the outcome of a command, unless git has to be asked and fails. */
  function Recorded(command: Command, status: Status, now: Elapsed, git: Git): Option<Status> {
    var time := Some(Timestamp(now));
    match command
    case InstallStart =>
      Some(status.(supported := true, installState := Running, installStartedAt := time,
                   installFinishedAt := None, installError := None))
    case InstallSucceeded =>
      if git.head.None? || git.changes.None? then None
      else
        var dirty := exists c <- git.changes.value :: !IsWhitespace(c);
        Some(Status(true, git.head, None, false, dirty, time, None, Success, status.installStartedAt, time, None))
    case InstallFailed =>
      Some(status.(supported := true, installState := Failed, installFinishedAt := time, installError := Some(FAILED)))
  }

  function RecordWrites(stored: Option<Status>, command: Command, now: Elapsed, locked: bool, readable: bool,
      git: Git, write: Write): seq<Status>
  {
    var recorded := Recorded(command, Loaded(stored, readable), now, git);
    if locked && recorded.Some? then Kept(recorded.value, write) else []
  }

  // ---------------------------------------------------------------------------------------------
  // The operations
  // ---------------------------------------------------------------------------------------------

  class StatusFile {
    var stored: Option<Status>
    /** Every document the file has held, in order. */
    ghost var versions: seq<Status>

    ghost predicate Valid()
      reads this
    {
      stored == LastOf(versions)
    }

    constructor ()
      ensures Valid() && versions == []
    {
      stored, versions := None, [];
    }

    method Load(readable: bool) returns (status: Status)
      ensures status == Loaded(stored, readable)
    {
      if !readable {
        return EMPTY_STATUS;
      }
      match stored
      case None => return EMPTY_STATUS;
      case Some(existing) => return existing;
    }

    method WriteStatus(status: Status, write: Write) returns (ok: bool)
      requires Valid()
      modifies this
      ensures Valid() && versions == old(versions) + Kept(status, write)
      ensures ok == write.Saved?
    {
      if !write.Refused? {
        stored := Some(status);
        versions := versions + [status];
      }
      return write.Saved?;
    }

    method HasText(text: string) returns (found: bool)
      ensures found <==> exists c <- text :: !IsWhitespace(c)
    {
      var i := 0;
      while i < |text|
        invariant 0 <= i <= |text|
        invariant forall k :: 0 <= k < i ==> IsWhitespace(text[k])
      {
        if !IsWhitespace(text[i]) {
          return true;
        }
        i := i + 1;
      }
      return false;
    }

    /** The three git commands, the first failure ending the look. */
    method Ask(git: Git) returns (found: Option<Commits>)
      ensures found == Look(git)
    {
      if git.head.None? || git.remote.None? {
        return None;
      }
      var words := Words(git.remote.value);
      if words == [] || !IsCommit(words[0]) || git.changes.None? {
        return None;
      }
      var dirty := HasText(git.changes.value);
      return Some(Commits(git.head.value, words[0], dirty));
    }

    /** `check`. */
    method Check(now: Elapsed, scene: Scene) returns (ok: bool)
      requires Valid()
      modifies this
      ensures Valid() && versions == old(versions) + CheckWrites(old(stored), now, scene)
      ensures ok == CheckSucceeds(old(stored), scene)
    {
      hide Timestamp, Look, Words, IsCommit, IsWhitespace;
      if scene.lock.Unusable? {
        return false;
      }
      if scene.lock.Busy? {
        return true;
      }
      var status := Load(scene.readable);
      if status.installState == Running {
        if scene.installing {
          return true;
        }
        status := status.(installState := Failed);
        status := status.(installFinishedAt := Some(Timestamp(now)));
        status := status.(installError := Some(STOPPED));
        var repaired := WriteStatus(status, scene.repair);
        if !repaired {
          return false;
        }
      }
      var checkedAt := Timestamp(now);
      var found := Ask(scene.git);
      match found {
        case Some(commits) =>
          var newer := commits.available != commits.installed;
          status := status.(supported := true);
          status := status.(installedCommit := Some(commits.installed));
          status := status.(availableCommit := if newer then Some(commits.available) else None);
          status := status.(updateAvailable := newer);
          status := status.(workingTreeDirty := commits.dirty);
          status := status.(checkedAt := Some(checkedAt));
          status := status.(checkError := None);
        case None =>
          status := status.(supported := true);
          status := status.(checkedAt := Some(checkedAt));
          status := status.(checkError := Some(UNREACHABLE));
      }
      ok := WriteStatus(status, scene.report);
    }

    /** `record_install_state`. */
    method RecordInstallState(command: Command, now: Elapsed, locked: bool, readable: bool, git: Git, write: Write)
      returns (ok: bool)
      requires Valid()
      modifies this
      ensures Valid()
      ensures versions == old(versions) + RecordWrites(old(stored), command, now, locked, readable, git, write)
      ensures ok <==> locked && write.Saved? && (command.InstallSucceeded? ==> git.head.Some? && git.changes.Some?)
    {
      if !locked {
        return false;
      }
      var status := Load(readable);
      var time := Timestamp(now);
      match command {
        case InstallStart =>
          status := status.(supported := true);
          status := status.(installState := Running);
          status := status.(installStartedAt := Some(time));
          status := status.(installFinishedAt := None);
          status := status.(installError := None);
        case InstallSucceeded =>
          if git.head.None? || git.changes.None? {
            return false;
          }
          var dirty := HasText(git.changes.value);
          status := status.(supported := true);
          status := status.(installedCommit := git.head);
          status := status.(availableCommit := None);
          status := status.(updateAvailable := false);
          status := status.(workingTreeDirty := dirty);
          status := status.(checkedAt := Some(time));
          status := status.(checkError := None);
          status := status.(installState := Success);
          status := status.(installFinishedAt := Some(time));
          status := status.(installError := None);
        case InstallFailed =>
          status := status.(supported := true);
          status := status.(installState := Failed);
          status := status.(installFinishedAt := Some(time));
          status := status.(installError := Some(FAILED));
      }
      ok := WriteStatus(status, write);
    }
  }

  function LastOf(versions: seq<Status>): Option<Status> {
    if versions == [] then None else Some(versions[|versions| - 1])
  }
}
