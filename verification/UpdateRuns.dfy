/** What every status document says, over any order of checks, installs and crashes. */
module UpdateRuns {
  import opened Wrappers
  import opened AtomicWrite
  import opened Timestamps
  import opened Whitespace
  import opened UpdateStatus

  /**
    What can happen to the document. An installer holds the update lock from its beginning to its end,
    however it ends; a check looks at the lock, and takes it for free when the lock file does not open.
    */
  datatype Event =
    | Initialize(write: Write)
    | TakeUpdateLock
    | DropUpdateLock
    | Check(now: Elapsed, lock: CheckLock, lockOpens: bool, readable: bool, git: Git, repair: Write, report: Write)
    | Record(command: Command, now: Elapsed, locked: bool, readable: bool, git: Git, write: Write)

  /** Every document so far, and whether the update lock is held. */
  datatype System = System(versions: seq<Status>, installing: bool)

  function SceneOf(e: Event, installing: bool): Scene
    requires e.Check?
  {
    Scene(e.lock, installing && e.lockOpens, e.readable, e.git, e.repair, e.report)
  }

  function Writes(s: System, e: Event): seq<Status> {
    match e
    case Initialize(write) => Kept(EMPTY_STATUS, write)
    case TakeUpdateLock => []
    case DropUpdateLock => []
    case Check(now, _, _, _, _, _, _) => CheckWrites(LastOf(s.versions), now, SceneOf(e, s.installing))
    case Record(command, now, locked, readable, git, write) =>
      RecordWrites(LastOf(s.versions), command, now, locked, readable, git, write)
  }

  function Step(s: System, e: Event): System {
    System(s.versions + Writes(s, e),
           if e.TakeUpdateLock? then true else if e.DropUpdateLock? then false else s.installing)
  }

  function Run(s: System, events: seq<Event>): System {
    if events == [] then s else Step(Run(s, events[..|events| - 1]), events[|events| - 1])
  }

  const START := System([], false)

  // ---------------------------------------------------------------------------------------------
  // Every document
  // ---------------------------------------------------------------------------------------------

  /** The update offer, the install record and the check record each agree with themselves. */
  predicate Consistent(s: Status) {
    && s.supported
    && (s.updateAvailable <==> s.availableCommit.Some?)
    && (s.updateAvailable ==>
          IsCommit(s.availableCommit.value) && s.installedCommit.Some? && s.installedCommit != s.availableCommit)
    && (s.installedCommit.Some? || s.workingTreeDirty || s.checkError.Some? ==> s.checkedAt.Some?)
    && (match s.installState
        case Idle => s.installStartedAt.None? && s.installFinishedAt.None? && s.installError.None?
        case Running => s.installStartedAt.Some? && s.installFinishedAt.None? && s.installError.None?
        case Success =>
          s.installFinishedAt.Some? && s.installError.None? && s.installedCommit.Some? && s.checkedAt.Some?
        case Failed => s.installFinishedAt.Some? && s.installError.Some?)
  }

  ghost predicate AllConsistent(versions: seq<Status>) {
    forall i :: 0 <= i < |versions| ==> Consistent(versions[i])
  }

  lemma StepConsistent(s: System, e: Event)
    requires AllConsistent(s.versions)
    ensures AllConsistent(Writes(s, e))
  {
    hide Timestamp, Words, IsCommit, IsWhitespace;
    match e
    case Check(now, _, _, readable, git, _, _) => CheckConsistent(LastOf(s.versions), now, SceneOf(e, s.installing));
    case Record(_, _, _, _, _, _) =>
    case Initialize(_) =>
    case TakeUpdateLock =>
    case DropUpdateLock =>
  }

  lemma LookedConsistent(status: Status, now: Elapsed, git: Git)
    requires Consistent(status)
    ensures Consistent(Looked(status, now, Look(git)))
  {
    hide Timestamp, Words, IsCommit, IsWhitespace;
  }

  lemma CheckConsistent(stored: Option<Status>, now: Elapsed, scene: Scene)
    requires stored.Some? ==> Consistent(stored.value)
    ensures AllConsistent(CheckWrites(stored, now, scene))
  {
    hide Timestamp, Look, Looked, IsCommit;
    var status := Loaded(stored, scene.readable);
    LookedConsistent(status, now, scene.git);
    if status.installState.Running? {
      LookedConsistent(Interrupted(status, now), now, scene.git);
    }
  }

  /** Every document that any run ever writes is consistent. */
  lemma {:induction false} EveryDocumentConsistent(events: seq<Event>)
    ensures AllConsistent(Run(START, events).versions)
  {
    hide Consistent, Writes;
    if events != [] {
      var before := events[..|events| - 1];
      EveryDocumentConsistent(before);
      StepConsistent(Run(START, before), events[|events| - 1]);
    }
  }

  // ---------------------------------------------------------------------------------------------
  // Installs that run, and installs that stopped
  // ---------------------------------------------------------------------------------------------

  function Document(s: System): Status
    requires s.versions != []
  {
    s.versions[|s.versions| - 1]
  }

  ghost predicate OnlyChecks(events: seq<Event>) {
    forall i :: 0 <= i < |events| ==> events[i].Check?
  }

  /** While an installer holds the lock, checks that can see it leave its document alone. */
  lemma {:induction false} RunningInstallUntouched(s: System, checks: seq<Event>)
    requires s.installing && s.versions != [] && Document(s).installState.Running?
    requires OnlyChecks(checks) && forall i :: 0 <= i < |checks| ==> checks[i].lockOpens && checks[i].readable
    ensures Run(s, checks) == s
  {
    hide Step;
    if checks != [] {
      RunningInstallUntouched(s, checks[..|checks| - 1]);
      SilentCheck(s, checks[|checks| - 1]);
    }
  }

  lemma SilentCheck(s: System, e: Event)
    requires s.installing && s.versions != [] && Document(s).installState.Running?
    requires e.Check? && e.lockOpens && e.readable
    ensures Step(s, e) == s
  {
    hide Interrupted, Looked, Look, Kept;
    assert Writes(s, e) == [];
  }

  ghost predicate SameInstall(a: Status, b: Status) {
    && a.installState == b.installState && a.installStartedAt == b.installStartedAt
    && a.installFinishedAt == b.installFinishedAt && a.installError == b.installError
  }

  lemma CheckAfterInstall(s: System, e: Event)
    requires s.versions != [] && !Document(s).installState.Running? && e.Check? && e.readable
    ensures Step(s, e).versions != [] && SameInstall(Document(Step(s, e)), Document(s))
  {
    hide Timestamp, Look;
  }

  /** Checks do not alter the record of an install that is over. */
  lemma {:induction false} FinishedInstallKept(s: System, checks: seq<Event>)
    requires s.versions != [] && !Document(s).installState.Running?
    requires OnlyChecks(checks) && forall i :: 0 <= i < |checks| ==> checks[i].readable
    ensures Run(s, checks).versions != [] && SameInstall(Document(Run(s, checks)), Document(s))
  {
    hide Step;
    if checks != [] {
      FinishedInstallKept(s, checks[..|checks| - 1]);
      CheckAfterInstall(Run(s, checks[..|checks| - 1]), checks[|checks| - 1]);
    }
  }

  lemma StoppedInstallFailed(s: System, e: Event)
    requires s.versions != [] && Document(s).installState.Running? && !s.installing
    requires e.Check? && e.lock.Acquired? && e.readable && !e.repair.Refused?
    ensures Step(s, e).versions != [] && !Step(s, e).installing
    ensures SameInstall(Document(Step(s, e)), Interrupted(Document(s), e.now))
    ensures Document(Step(s, e)).installState.Failed?
  {
    hide Timestamp, Look;
  }

  lemma {:induction false} RunJoined(s: System, first: seq<Event>, rest: seq<Event>)
    ensures Run(s, first + rest) == Run(Run(s, first), rest)
  {
    hide Step;
    if rest == [] {
      assert first + rest == first;
    } else {
      RunJoined(s, first, rest[..|rest| - 1]);
      assert (first + rest)[..|first + rest| - 1] == first + rest[..|rest| - 1];
    }
  }

  /**
    An install whose process is gone is reported as failed by the first check that can save, at that check's
    time and whatever git says, and later checks keep the report.
    */
  lemma StoppedInstallReported(s: System, checks: seq<Event>)
    requires s.versions != [] && Document(s).installState.Running? && !s.installing
    requires checks != [] && OnlyChecks(checks) && forall i :: 0 <= i < |checks| ==> checks[i].readable
    requires checks[0].lock.Acquired? && !checks[0].repair.Refused?
    ensures Run(s, checks).versions != []
    ensures var end := Document(Run(s, checks));
            && end.installState == Failed && end.installStartedAt == Document(s).installStartedAt
            && end.installFinishedAt == Some(Timestamp(checks[0].now))
            && end.installError == Some("Update stopped before completion. Check the Pi logs before retrying.")
  {
    hide Step, Timestamp;
    assert checks == [checks[0]] + checks[1..];
    RunJoined(s, [checks[0]], checks[1..]);
    assert Run(s, [checks[0]]) == Step(s, checks[0]) by {
      assert [checks[0]][..0] == [];
    }
    StoppedInstallFailed(s, checks[0]);
    FinishedInstallKept(Step(s, checks[0]), checks[1..]);
  }

  /**
    An install that is recorded from start to end says when it began and when and how it ended, whatever checks
    came in between.
    */
  lemma InstallRecorded(s: System, start: Event, checks: seq<Event>, end: Event)
    requires s.installing && start.Record? && start.command.InstallStart? && start.locked && !start.write.Refused?
    requires OnlyChecks(checks) && forall i :: 0 <= i < |checks| ==> checks[i].lockOpens && checks[i].readable
    requires end.Record? && !end.command.InstallStart? && end.locked && end.readable && !end.write.Refused?
    requires end.command.InstallSucceeded? ==> end.git.head.Some? && end.git.changes.Some?
    ensures var after := Step(Run(Step(s, start), checks), end);
            && after.versions != []
            && Document(after).installStartedAt == Some(Timestamp(start.now))
            && Document(after).installFinishedAt == Some(Timestamp(end.now))
            && Document(after).installState == (if end.command.InstallSucceeded? then Success else Failed)
            && Document(after).installError ==
               (if end.command.InstallSucceeded? then None
                else Some("Update failed. Check the Pi logs before retrying."))
  {
    hide Step, Timestamp;
    StartRecorded(s, start);
    RunningInstallUntouched(Step(s, start), checks);
    EndRecorded(Step(s, start), end);
  }

  lemma StartRecorded(s: System, start: Event)
    requires s.installing && start.Record? && start.command.InstallStart? && start.locked && !start.write.Refused?
    ensures var begun := Step(s, start);
            && begun.installing && begun.versions != [] && Document(begun).installState.Running?
            && Document(begun).installStartedAt == Some(Timestamp(start.now))
  {
    hide Timestamp;
  }

  lemma EndRecorded(s: System, end: Event)
    requires s.versions != [] && end.Record? && !end.command.InstallStart? && end.locked && end.readable
             && !end.write.Refused?
    requires end.command.InstallSucceeded? ==> end.git.head.Some? && end.git.changes.Some?
    ensures var after := Step(s, end);
            && after.versions != []
            && Document(after).installStartedAt == Document(s).installStartedAt
            && Document(after).installFinishedAt == Some(Timestamp(end.now))
            && Document(after).installState == (if end.command.InstallSucceeded? then Success else Failed)
            && Document(after).installError == (if end.command.InstallSucceeded? then None else Some(FAILED))
  {
    hide Timestamp, IsWhitespace;
  }

  // ---------------------------------------------------------------------------------------------
  // What the document offers
  // ---------------------------------------------------------------------------------------------

  /** Events that learn nothing about commits: looks that fail, and every record but a success. */
  ghost predicate Quiet(events: seq<Event>) {
    forall i :: 0 <= i < |events| ==>
      match events[i]
      case Initialize(write) => write.Refused?
      case Check(_, _, _, readable, git, _, _) => readable && Look(git).None?
      case Record(command, _, _, readable, _, _) => readable && !command.InstallSucceeded?
      case _ => true
  }

  predicate Offers(s: Status, installed: string, available: string) {
    && s.installedCommit == Some(installed)
    && (s.updateAvailable <==> available != installed)
    && s.availableCommit == (if available != installed then Some(available) else None)
  }

  lemma QuietStep(s: System, e: Event, installed: string, available: string)
    requires s.versions != [] && Offers(Document(s), installed, available) && Quiet([e])
    ensures Step(s, e).versions != [] && Offers(Document(Step(s, e)), installed, available)
  {
    hide Timestamp, Look;
    assert [e][0] == e;
  }

  lemma {:induction false} OfferKept(s: System, events: seq<Event>, installed: string, available: string)
    requires s.versions != [] && Offers(Document(s), installed, available) && Quiet(events)
    ensures Run(s, events).versions != [] && Offers(Document(Run(s, events)), installed, available)
  {
    hide Step, Offers;
    if events != [] {
      var before, last := events[..|events| - 1], events[|events| - 1];
      OfferKept(s, before, installed, available);
      assert Quiet([last]) by {
        assert events[|events| - 1] == last;
      }
      QuietStep(Run(s, before), last, installed, available);
    }
  }

  /** What a look found stands until the next look that succeeds, the next success or the next reset. */
  lemma OfferStands(s: System, look: Event, later: seq<Event>)
    requires look.Check? && look.lock.Acquired? && Look(look.git).Some? && look.repair.Saved? && !look.report.Refused?
    requires Loaded(LastOf(s.versions), look.readable).installState.Running? ==> !(s.installing && look.lockOpens)
    requires Quiet(later)
    ensures var found, end := Look(look.git).value, Run(Step(s, look), later);
            end.versions != [] && Offers(Document(end), found.installed, found.available)
  {
    var found := Look(look.git).value;
    assert Step(s, look).versions != [] && Offers(Document(Step(s, look)), found.installed, found.available) by {
      hide Timestamp, Look;
    }
    OfferKept(Step(s, look), later, found.installed, found.available);
  }

  /** A recorded success withdraws every offer, and none comes back without a new look. */
  lemma SuccessWithdrawsOffer(s: System, record: Event, later: seq<Event>)
    requires record.Record? && record.command.InstallSucceeded? && record.locked && !record.write.Refused?
    requires record.git.head.Some? && record.git.changes.Some? && Quiet(later)
    ensures var end := Run(Step(s, record), later);
            && end.versions != [] && !Document(end).updateAvailable && Document(end).availableCommit.None?
            && Document(end).installedCommit == record.git.head
  {
    var head := record.git.head.value;
    assert Step(s, record).versions != [] && Offers(Document(Step(s, record)), head, head) by {
      hide Timestamp;
    }
    OfferKept(Step(s, record), later, head, head);
  }

  // ---------------------------------------------------------------------------------------------
  // What a look says, and how a check ends
  // ---------------------------------------------------------------------------------------------

  /** Forty lower-case hexadecimal digits. */
  predicate IsFullName(commit: string) {
    |commit| == 40 && forall i :: 0 <= i < 40 ==> '0' <= commit[i] <= '9' || 'a' <= commit[i] <= 'f'
  }

  predicate Blank(text: string) {
    forall i :: 0 <= i < |text| ==> IsWhitespace(text[i])
  }

  ghost predicate FirstWord(text: string, word: string) {
    exists lead, rest :: BeginsWith(text, lead, word, rest)
  }

  /**
   What a look finds in git's answers: the head is installed, the first word about the remote is available if it is a
   full commit name, and the tree is dirty when the list of changes is not blank.
   */
  lemma LookIff(git: Git, found: Commits)
    ensures Look(git) == Some(found) <==>
              && git.head == Some(found.installed)
              && git.remote.Some? && FirstWord(git.remote.value, found.available) && IsFullName(found.available)
              && git.changes.Some? && (found.dirty <==> !Blank(git.changes.value))
  {
    hide Words, IsWhitespace, BeginsWith;
    if git.remote.Some? {
      if Words(git.remote.value) != [] {
        var lead, rest := FirstWordStands(git.remote.value);
        FullNameIff(Words(git.remote.value)[0]);
      }
      if FirstWord(git.remote.value, found.available) {
        var lead, rest :| BeginsWith(git.remote.value, lead, found.available, rest);
        FirstWordFound(git.remote.value, lead, found.available, rest);
      }
    }
    if git.changes.Some? {
      BlankIff(git.changes.value);
    }
    hide IsCommit, IsFullName, Blank;
  }

  lemma FullNameIff(commit: string)
    ensures IsCommit(commit) <==> IsFullName(commit)
  {
    assert forall i :: 0 <= i < |commit| ==> commit[i] in commit;
    if IsFullName(commit) {
      forall c | c in commit ensures '0' <= c <= '9' || 'a' <= c <= 'f' {
        var i :| 0 <= i < |commit| && commit[i] == c;
      }
    }
  }

  lemma BlankIff(text: string)
    ensures Blank(text) <==> !exists c <- text :: !IsWhitespace(c)
  {
    hide IsWhitespace;
  }

  /** Whether a check leaves a running install to its installer. */
  predicate Watches(stored: Option<Status>, scene: Scene) {
    Loaded(stored, scene.readable).installState.Running? && scene.installing
  }

  /**
   A check fails exactly when its lock is unusable, or it had something to write and a write did not succeed; it does
   not look at all when it could not mark an install that stopped. When it succeeds with the lock and no installer is
   at work, the last document it wrote tells what this look found.
   */
  lemma CheckEnds(stored: Option<Status>, now: Elapsed, scene: Scene)
    ensures var running := Loaded(stored, scene.readable).installState.Running?;
            CheckSucceeds(stored, scene) <==>
              || scene.lock.Busy?
              || (scene.lock.Acquired? && Watches(stored, scene))
              || (scene.lock.Acquired? && scene.report.Saved? && (!running || scene.repair.Saved?))
    ensures !scene.lock.Acquired? || Watches(stored, scene) ==> CheckWrites(stored, now, scene) == []
    ensures var before := Loaded(stored, scene.readable);
            scene.lock.Acquired? && !scene.installing && before.installState.Running? && !scene.repair.Saved? ==>
              CheckWrites(stored, now, scene) == if scene.repair.Refused? then [] else [Interrupted(before, now)]
    ensures scene.lock.Acquired? && !Watches(stored, scene) && CheckSucceeds(stored, scene) ==>
              var written := CheckWrites(stored, now, scene);
              written != [] && TellsLook(Loaded(stored, scene.readable), now, scene.git, written[|written| - 1])
  {
    hide Timestamp, Look;
  }

  /** A document that tells what a look found, or that it found nothing, and keeps what it did not look at. */
  ghost predicate TellsLook(before: Status, now: Elapsed, git: Git, s: Status) {
    && s.supported && s.checkedAt == Some(Timestamp(now))
    && (Look(git).Some? ==>
          var found := Look(git).value;
          && s.checkError.None? && Offers(s, found.installed, found.available)
          && s.workingTreeDirty == found.dirty)
    && (Look(git).None? ==>
          && s.checkError == Some("Could not reach GitHub. The next check will retry.")
          && s.installedCommit == before.installedCommit && s.availableCommit == before.availableCommit
          && s.updateAvailable == before.updateAvailable && s.workingTreeDirty == before.workingTreeDirty)
  }

  /** What the records of a start and of a failure say, and that they keep what is known about commits. */
  lemma RecordTells(s: System, record: Event)
    requires record.Record? && !record.command.InstallSucceeded? && record.locked && !record.write.Refused?
    ensures var before, after := Loaded(LastOf(s.versions), record.readable), Step(s, record);
            && after.versions == s.versions + [Document(after)] && after.versions != []
            && var d := Document(after);
               && d.supported
               && (record.command.InstallStart? ==>
                     && d.installState == Running && d.installStartedAt == Some(Timestamp(record.now))
                     && d.installFinishedAt.None? && d.installError.None?)
               && (record.command.InstallFailed? ==>
                     && d.installState == Failed && d.installFinishedAt == Some(Timestamp(record.now))
                     && d.installStartedAt == before.installStartedAt
                     && d.installError == Some("Update failed. Check the Pi logs before retrying."))
               && d.installedCommit == before.installedCommit && d.availableCommit == before.availableCommit
               && d.updateAvailable == before.updateAvailable && d.workingTreeDirty == before.workingTreeDirty
               && d.checkedAt == before.checkedAt && d.checkError == before.checkError
  {
    hide Timestamp;
  }

  /** What a recorded success says about the tree it installed. */
  lemma SuccessTells(s: System, record: Event)
    requires record.Record? && record.command.InstallSucceeded? && record.locked && !record.write.Refused?
    requires record.git.head.Some? && record.git.changes.Some?
    ensures var after := Step(s, record);
            && after.versions != []
            && var d := Document(after);
               && d.supported && d.installedCommit == record.git.head && d.checkError.None?
               && d.checkedAt == d.installFinishedAt == Some(Timestamp(record.now))
               && (d.workingTreeDirty <==> !Blank(record.git.changes.value))
  {
    BlankIff(record.git.changes.value);
    hide Timestamp, IsWhitespace, Blank;
  }
}
