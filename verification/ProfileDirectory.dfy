/** The directory of connection profiles: what a connect leaves in it, whichever of its steps fails. */
module ProfileDirectory {
  import opened Wrappers
  import opened AtomicWrite
  import opened EscapedText
  import opened WifiProfiles

  /** Names and texts; a file that cannot be read as a profile has no text. */
  type Files = map<string, Option<string>>

  predicate EndsWith(name: string, suffix: string) {
    |suffix| <= |name| && name[|name| - |suffix|..] == suffix
  }

  predicate OwnName(name: string) {
    PREFIX <= name && EndsWith(name, SUFFIX)
  }

  /** A profile of the given network other than the active one. */
  predicate IsOld(files: Files, active: string, interface: string, ssid: string, name: string) {
    && name in files && name != active && OwnName(name)
    && files[name].Some? && Matches(files[name].value, interface, ssid)
  }

  /** The names of the program's own profiles are these and no others. */
  lemma OwnNameIff(name: string)
    ensures OwnName(name) <==> exists middle :: IsNamed(name, middle)
  {
    if OwnName(name) {
      DashAfterPrefix(name);
      NoDashInSuffix(name);
      var middle := name[16..|name| - 13];
      assert name == name[..16] + middle + name[|name| - 13..];
      assert IsNamed(name, middle);
    }
    if exists middle :: IsNamed(name, middle) {
      var middle :| IsNamed(name, middle);
      assert name[..16] == PREFIX && name[|name| - 13..] == SUFFIX;
    }
  }

  predicate IsNamed(name: string, middle: string) {
    name == "lumistripe-wifi-" + middle + ".nmconnection"
  }

  lemma DashAfterPrefix(name: string)
    requires PREFIX <= name
    ensures |PREFIX| == 16 && name[15] == '-'
  {
    assert name[15] == PREFIX[15];
  }

  lemma NoDashInSuffix(name: string)
    requires EndsWith(name, SUFFIX)
    ensures |SUFFIX| == 13 && forall i :: |name| - 13 <= i < |name| ==> name[i] != '-'
  {
    assert forall i :: |name| - 13 <= i < |name| ==> name[i] == SUFFIX[i - (|name| - 13)];
  }

  function OldProfiles(files: Files, active: string, interface: string, ssid: string): (stale: set<string>)
    ensures stale <= files.Keys
  {
    set name | name in files && IsOld(files, active, interface, ssid, name)
  }

  /** How a removal ends: whether the directory can be listed, and the names that cannot be deleted. */
  datatype Removal = Removal(listable: bool, stuck: set<string>)

  /** How the steps of one connect end. */
  datatype Fates = Fates(first: Write, load: bool, up: bool, second: Write, reload: bool, removal: Removal, last: bool,
      cleaned: bool)

  function Stored(files: Files, name: string, s: Settings, write: Write): Files {
    if write.InPlace() then files[name := Some(Joined(ProfileLines(s)))] else files
  }

  predicate Removes(f: Fates) {
    f.first.Saved? && f.load && f.up && f.second.Saved? && f.reload
  }

  function AfterRemoval(files: Files, name: string, s: Settings, r: Removal): Files {
    if r.listable then files - (OldProfiles(files, name, s.interface, s.ssid) - r.stuck) else files
  }

  function Written(files: Files, name: string, s: Settings, f: Fates): Files {
    var once := Stored(files, name, s.(autoconnect := false), f.first);
    if f.first.Saved? && f.load && f.up then Stored(once, name, s.(autoconnect := true), f.second) else once
  }

  function AfterConnect(files: Files, name: string, s: Settings, f: Fates): Files {
    var written := Written(files, name, s, f);
    var removed := if Removes(f) then AfterRemoval(written, name, s, f.removal) else written;
    if !f.first.Saved? || (Removes(f) && f.last) then removed
    else if f.cleaned then removed - {name} else removed
  }

  class Directory {
    var files: Files

    constructor (files: Files)
      ensures this.files == files
    {
      this.files := files;
    }

    method WriteProfile(name: string, s: Settings, write: Write) returns (ok: bool)
      modifies this
      ensures ok == write.Saved? && files == Stored(old(files), name, s, write)
    {
      var contents := ProfileContents(s);
      if write.InPlace() {
        files := files[name := Some(contents)];
      }
      return write.Saved?;
    }

    method ShouldRemove(name: string, active: string, interface: string, ssid: string) returns (stale: bool)
      requires name in files
      ensures stale == IsOld(files, active, interface, ssid, name)
    {
      hide OwnName, Matches;
      if name == active || !OwnName(name) || files[name].None? {
        return false;
      }
      stale := ProfileMatches(files[name].value, interface, ssid);
    }

    /** `remove_old_profiles`, in whatever order the directory lists its entries; a failed deletion is passed over. */
    method RemoveOldProfiles(active: string, interface: string, ssid: string, r: Removal)
      modifies this
      ensures files == if r.listable then old(files) - (OldProfiles(old(files), active, interface, ssid) - r.stuck)
              else old(files)
    {
      hide IsOld, OldProfiles;
      if !r.listable {
        return;
      }
      ghost var was := files;
      ghost var targets := OldProfiles(was, active, interface, ssid) - r.stuck;
      var left := files.Keys;
      while left != {}
        invariant left <= was.Keys
        invariant files == was - (targets - left)
        decreases |left|
      {
        var name :| name in left;
        var remove := ShouldRemove(name, active, interface, ssid);
        StillOld(was, targets - left, active, interface, ssid, name);
        LeaveOne(was, targets, left, name);
        if remove && name !in r.stuck {
          files := files - {name};
        }
        left := left - {name};
      }
      assert targets - {} == targets;
    }

    /** `connect`, from its first write on. */
    method Connect(name: string, s: Settings, f: Fates) returns (ok: bool)
      modifies this
      ensures ok <==> Removes(f) && f.last
      ensures files == AfterConnect(old(files), name, s, f)
    {
      hide OldProfiles, Stored;
      var written := WriteProfile(name, s.(autoconnect := false), f.first);
      if !written {
        return false;
      }
      ok := f.load && f.up;
      if ok {
        ok := WriteProfile(name, s.(autoconnect := true), f.second);
      }
      if ok {
        ok := f.reload;
      }
      if ok {
        RemoveOldProfiles(name, s.interface, s.ssid, f.removal);
        ok := f.last;
      }
      if !ok && f.cleaned {
        files := files - {name};
      }
    }
  }

  lemma LeaveOne(was: Files, targets: set<string>, left: set<string>, name: string)
    requires name in left
    ensures was - (targets - (left - {name})) == if name in targets then (was - (targets - left)) - {name}
            else was - (targets - left)
  {
    if name in targets {
      assert targets - (left - {name}) == (targets - left) + {name};
    } else {
      assert targets - (left - {name}) == targets - left;
    }
  }

  lemma StillOld(was: Files, gone: set<string>, active: string, interface: string, ssid: string, name: string)
    requires name in was - gone
    ensures IsOld(was - gone, active, interface, ssid, name) <==> name in OldProfiles(was, active, interface, ssid)
  {
    hide OwnName, Matches;
  }

  // ---------------------------------------------------------------------------------------------
  // What a connect leaves
  // ---------------------------------------------------------------------------------------------

  /** The old profiles are exactly the other profiles that were written for the same adapter and network. */
  lemma OldProfilesAre(files: Files, active: string, interface: string, ssid: string, settings: map<string, Settings>)
    requires forall name :: name in settings <==> name in files && OwnName(name)
    requires forall name :: name in settings ==>
               Writable(settings[name]) && files[name] == Some(Joined(ProfileLines(settings[name])))
    ensures forall name :: name in OldProfiles(files, active, interface, ssid) <==>
              name in settings && name != active && settings[name].interface == interface && settings[name].ssid == ssid
  {
    hide OwnName, Matches, ProfileLines, Joined, OneLine;
    forall name | name in settings
      ensures Matches(files[name].value, interface, ssid) <==>
              settings[name].interface == interface && settings[name].ssid == ssid
    {
      WrittenProfileMatches(settings[name], interface, ssid);
    }
  }

  /** The old profiles that a removal can delete. */
  function Deleted(files: Files, name: string, s: Settings, r: Removal): set<string> {
    if r.listable then OldProfiles(files, name, s.interface, s.ssid) - r.stuck else {}
  }

  /**
   A connect that succeeds adds its profile and takes away the old ones of its network, except those it could not
   delete.
   */
  lemma SuccessfulConnect(files: Files, name: string, s: Settings, f: Fates)
    requires Removes(f) && f.last && name !in files
    ensures AfterConnect(files, name, s, f) ==
              (files - Deleted(files, name, s, f.removal))[name := Some(Joined(ProfileLines(s.(autoconnect := true))))]
  {
    hide Matches, OwnName, ProfileLines, Joined;
    SameOldProfiles(files, name, s, f);
  }

  /** The profile that a successful connect leaves connects by itself, with the password it was given. */
  lemma ConnectedProfile(files: Files, name: string, s: Settings, f: Fates)
    requires Removes(f) && f.last && name !in files && Writable(s)
    ensures var after := AfterConnect(files, name, s, f);
            && name in after && after[name].Some?
            && var text := after[name].value;
               && ValueOf(text, "connection", "autoconnect") == Some("true")
               && Decoded(ValueOf(text, "connection", "id")) == Some(s.id)
               && ValueOf(text, "connection", "uuid") == Some(s.uuid)
               && Decoded(ValueOf(text, "802-11-wireless", "ssid")) == Some(s.ssid)
               && ValueOf(text, "802-11-wireless-security", "key-mgmt") == s.keyManagement
               && Decoded(ValueOf(text, "802-11-wireless-security", "psk")) ==
                  (if s.keyManagement.Some? then Some(s.password) else None)
               && (HasSection(text, "802-11-wireless-security") <==> s.keyManagement.Some?)
               && Matches(text, s.interface, s.ssid)
  {
    hide AfterConnect, Matches, ProfileLines, Joined, ValueOf, Decoded, HasSection, OneLine;
    SuccessfulConnect(files, name, s, f);
    var written := s.(autoconnect := true);
    WrittenConnection(written);
    WrittenWireless(written);
    WrittenSecurity(written);
    WrittenProfileMatches(written, s.interface, s.ssid);
  }

  lemma SameOldProfiles(files: Files, name: string, s: Settings, f: Fates)
    ensures OldProfiles(Written(files, name, s, f), name, s.interface, s.ssid) ==
            OldProfiles(files, name, s.interface, s.ssid)
  {
    hide Matches, OwnName, ProfileLines, Joined;
    var written := Written(files, name, s, f);
    forall other
      ensures IsOld(written, name, s.interface, s.ssid, other) <==> IsOld(files, name, s.interface, s.ssid, other)
    {
    }
  }

  /**
    A connect that fails keeps every other profile exactly when it failed before the removal or the removal had
    nothing to take: the last reload comes too late. Its own profile stays behind when only the sync after the
    first rename failed, or when neither clean-up could delete it.
    */
  lemma FailedConnect(files: Files, name: string, s: Settings, f: Fates)
    requires !(Removes(f) && f.last) && name !in files
    ensures AfterConnect(files, name, s, f) - {name} == files
       <==> !Removes(f) || Deleted(files, name, s, f.removal) == {}
    ensures name in AfterConnect(files, name, s, f) <==> f.first.SavedUnsynced? || (f.first.Saved? && !f.cleaned)
  {
    hide Matches, OwnName, ProfileLines, Joined;
    SameOldProfiles(files, name, s, f);
    var written := Written(files, name, s, f);
    assert written - {name} == files;
    var deleted := Deleted(files, name, s, f.removal);
    if Removes(f) && deleted != {} {
      var lost :| lost in deleted;
      assert lost in files && lost !in AfterConnect(files, name, s, f);
    }
  }

  // ---------------------------------------------------------------------------------------------
  // Failed connects that leave the directory changed
  // ---------------------------------------------------------------------------------------------

  const HOME := Settings("Home", "1", "wlan0", "Home", "", None, true)
  const OLD_NAME := PREFIX + "1" + SUFFIX
  const NEW_NAME := PREFIX + "2" + SUFFIX
  const HOME_FILES: Files := map[OLD_NAME := Some(Joined(ProfileLines(HOME)))]

  lemma HomeNames()
    ensures OwnName(OLD_NAME) && OLD_NAME != NEW_NAME && Writable(HOME)
  {
    assert OLD_NAME[|OLD_NAME| - |SUFFIX|..] == SUFFIX;
    assert OLD_NAME[|PREFIX|] != NEW_NAME[|PREFIX|];
  }

  lemma HomeIsOld()
    ensures OldProfiles(HOME_FILES, NEW_NAME, HOME.interface, HOME.ssid) == {OLD_NAME}
  {
    hide Matches, OwnName, ProfileLines, Joined;
    HomeNames();
    WrittenProfileMatches(HOME, HOME.interface, HOME.ssid);
    assert IsOld(HOME_FILES, NEW_NAME, HOME.interface, HOME.ssid, OLD_NAME);
  }

  /** When only the last reload fails, the old profile of the network is gone and so is the new one. */
  lemma LastReloadLosesOldProfile() returns (f: Fates)
    ensures Removes(f) && !f.last && f.cleaned
    ensures AfterConnect(HOME_FILES, NEW_NAME, HOME, f) == map[]
  {
    hide Matches, OwnName, ProfileLines, Joined, OldProfiles;
    f := Fates(Saved, true, true, Saved, true, Removal(true, {}), false, true);
    HomeNames();
    HomeIsOld();
    SameOldProfiles(HOME_FILES, NEW_NAME, HOME, f);
  }

  /** When only the sync after the first rename fails, the new profile stays beside the old one. */
  lemma UnsyncedProfileStays() returns (f: Fates)
    ensures f.first.SavedUnsynced? && !Removes(f)
    ensures AfterConnect(HOME_FILES, NEW_NAME, HOME, f) ==
            HOME_FILES[NEW_NAME := Some(Joined(ProfileLines(HOME.(autoconnect := false))))]
  {
    hide Matches, OwnName, ProfileLines, Joined, OldProfiles;
    f := Fates(SavedUnsynced, true, true, Saved, true, Removal(true, {}), true, true);
  }

  /** After a connect that succeeds and could delete everything, the network has the one profile it was given. */
  lemma OneProfileLeft(files: Files, name: string, s: Settings, f: Fates, settings: map<string, Settings>,
      other: string)
    requires Removes(f) && f.last && f.removal == Removal(true, {}) && name !in files && OwnName(name) && Writable(s)
    requires forall n :: n in settings <==> n in files && OwnName(n)
    requires forall n :: n in settings ==>
               Writable(settings[n]) && files[n] == Some(Joined(ProfileLines(settings[n])))
    ensures var after := AfterConnect(files, name, s, f);
            && (other in after && OwnName(other) && after[other].Some?
                 && Matches(after[other].value, s.interface, s.ssid)
                <==> other == name)
            && (other in settings && (settings[other].interface, settings[other].ssid) != (s.interface, s.ssid) ==>
                  other in after && after[other] == files[other])
  {
    hide Matches, OwnName, ProfileLines, Joined, OneLine, OldProfiles, AfterConnect;
    SuccessfulConnect(files, name, s, f);
    OldProfilesAre(files, name, s.interface, s.ssid, settings);
    NewProfileMatches(s);
    if other in settings {
      WrittenProfileMatches(settings[other], s.interface, s.ssid);
    }
  }

  lemma NewProfileMatches(s: Settings)
    requires Writable(s)
    ensures Matches(Joined(ProfileLines(s.(autoconnect := true))), s.interface, s.ssid)
  {
    hide Matches, ProfileLines, Joined, OneLine;
    WrittenProfileMatches(s.(autoconnect := true), s.interface, s.ssid);
  }
}
