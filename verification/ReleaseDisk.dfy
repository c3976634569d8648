/**
 What extraction leaves on disk. The verifying pass compares a member with its immediate parent only, so it can
 accept a file above another member; extraction succeeds exactly when there is no such file.
 */
module ReleaseDisk {
  import opened Wrappers
  import opened Bytes
  import opened Paths
  import opened Ustar
  import opened ReleaseInventory
  import opened ReleaseArchive
  import opened ByteReaders
  import opened ReleaseTwoPass
  import opened TarBlocks

  // ---------------------------------------------------------------------------------------------
  // Directories
  // ---------------------------------------------------------------------------------------------

  ghost predicate AtOrAbove(outer: bytes, inner: bytes) {
    outer == inner || Above(outer, inner)
  }

  /** Everything on the disk stands in a folder. */
  ghost predicate Closed(disk: Disk) {
    forall p :: p in disk && Parent(p).Some? ==> Parent(p).value in disk && disk[Parent(p).value].Folder?
  }

  ghost predicate FileIn(disk: Disk, p: bytes) {
    p in disk && disk[p].Regular?
  }

  lemma {:induction false} ClosedAbove(disk: Disk, outer: bytes, inner: bytes)
    requires Closed(disk) && inner in disk && Above(outer, inner)
    ensures outer in disk && disk[outer].Folder?
    decreases |inner|
  {
    AboveParent(outer, inner);
    if outer != Parent(inner).value {
      ClosedAbove(disk, outer, Parent(inner).value);
    }
  }

  /** `create_dir_all` fails exactly when a file stands at or above the path, and otherwise adds the missing folders. */
  lemma {:induction false} CreateDirAllIs(disk: Disk, path: bytes)
    requires Closed(disk)
    ensures var r := CreateDirAll(disk, path);
            && (r.Err? ==> r.error == CannotCreate && exists q :: FileIn(disk, q) && AtOrAbove(q, path))
            && (r.Ok? ==>
                  && Closed(r.value)
                  && (forall q :: FileIn(disk, q) ==> !AtOrAbove(q, path))
                  && (forall q :: q in r.value <==> q in disk || AtOrAbove(q, path))
                  && (forall q :: q in r.value ==> r.value[q] == if q in disk then disk[q] else Folder))
    decreases |path|
  {
    var r := CreateDirAll(disk, path);
    if path in disk {
      forall q | Above(q, path) ensures q in disk && disk[q].Folder? {
        ClosedAbove(disk, q, path);
      }
      if disk[path].Regular? {
        assert FileIn(disk, path) && AtOrAbove(path, path);
      }
    } else if Parent(path).Some? {
      var parent := Parent(path).value;
      forall q ensures Above(q, path) <==> AtOrAbove(q, parent) {
        AboveParent(q, path);
      }
      CreateDirAllIs(disk, parent);
      if CreateDirAll(disk, parent).Err? {
        var q :| FileIn(disk, q) && AtOrAbove(q, parent);
        assert FileIn(disk, q) && AtOrAbove(q, path);
      }
    } else {
      forall q ensures !Above(q, path) {
        AboveParent(q, path);
      }
    }
  }

  // ---------------------------------------------------------------------------------------------
  // Members the verifying pass accepts
  // ---------------------------------------------------------------------------------------------

  ghost predicate FileAbove(f: TarEntry, e: TarEntry) {
    !f.directory && Above(f.name, e.name)
  }

  /** What the verifying pass has checked of a member against the ones before it. */
  ghost predicate Follows(done: seq<TarEntry>, e: TarEntry) {
    forall i :: 0 <= i < |done| ==>
      && done[i].name != e.name
      && !FileAbove(e, done[i])
      && (Parent(e.name) == Some(done[i].name) ==> done[i].directory)
  }

  ghost predicate Orderly(entries: seq<TarEntry>) {
    forall j :: 0 <= j < |entries| ==> Follows(entries[..j], entries[j])
  }

  lemma CheckedPlace(header: bytes, seen: set<bytes>, types: map<bytes, bool>)
    requires |header| == TAR_BLOCK && CheckTarHeader(header, seen, types).Ok?
    ensures var e := CheckTarHeader(header, seen, types).value;
            && (Parent(e.name).Some? && Parent(e.name).value in types ==> types[Parent(e.name).value])
            && (!e.directory ==> forall p :: p in types ==> !Above(e.name, p))
  {
    hide CheckName, CheckNumbers, AllowedDirectory, AllowedFile, Relative, Executable, Above;
  }

  lemma MemberFollows(src: Stream, s: Scan)
    requires s.pos <= |src.data| && Counted(s)
    requires NextStep(src, s).Ok? && NextStep(src, s).value.Member?
    ensures var t := NextStep(src, s).value.next;
            |t.entries| == |s.entries| + 1 && t.entries[..|s.entries|] == s.entries
              && Follows(s.entries, t.entries[|s.entries|])
  {
    hide CheckTarHeader, EntrySane, StoredSize, Above;
    MemberFacts(src, s);
    hide NextStep;
    CheckedPlace(src.data[s.pos..s.pos + TAR_BLOCK], s.seen, s.types);
  }

  lemma {:induction false} ScanOrderly(src: Stream, s: Scan)
    requires s.pos <= |src.data| && Counted(s) && Orderly(s.entries) && ScanMembers(src, s).Ok?
    ensures Orderly(ScanMembers(src, s).value.entries)
    ensures forall e :: e in ScanMembers(src, s).value.entries ==> EntrySane(e)
    decreases |src.data| - s.pos
  {
    hide CheckTarHeader, EntrySane, Follows;
    StepCounts(src, s);
    var step := NextStep(src, s).value;
    if step.Member? {
      MemberFollows(src, s);
      hide NextStep;
      var t := step.next;
      forall j | 0 <= j < |t.entries| ensures Follows(t.entries[..j], t.entries[j]) {
        if j < |s.entries| {
          assert t.entries[..j] == s.entries[..j];
        }
      }
      ScanOrderly(src, t);
    }
  }

  // ---------------------------------------------------------------------------------------------
  // The disk reflects the members
  // ---------------------------------------------------------------------------------------------

  /** The files so far, and the member at `pos` if it is one. */
  ghost function WithFile(src: Stream, pos: nat, files: map<bytes, DiskNode>, e: TarEntry): map<bytes, DiskNode>
    requires HasContent(src, pos, e)
  {
    if e.directory then files
    else files[e.name := Regular(ContentAt(src, pos, e), ModeFor(Relative(e.name), false))]
  }

  /**
   The files so far, and those among members whose first header is at `pos`, with the bytes that follow their headers.
   */
  ghost function FilesFrom(src: Stream, pos: nat, files: map<bytes, DiskNode>, entries: seq<TarEntry>)
    : map<bytes, DiskNode>
    requires Stored(src, pos, entries)
    decreases |entries|
  {
    if entries == [] then files
    else
      var e := entries[0];
      FilesFrom(src, pos + TAR_BLOCK + e.size + Padding(e.size), WithFile(src, pos, files, e), entries[1..])
  }

  ghost predicate Listed(done: seq<TarEntry>, p: bytes) {
    exists i :: 0 <= i < |done| && AtOrAbove(p, done[i].name)
  }

  /** The paths on the disk are the root and whatever is at or above a member. */
  ghost predicate Covers(disk: Disk, done: seq<TarEntry>) {
    forall p :: p in disk <==> p == ROOT || Listed(done, p)
  }

  /** `files` are the file members. */
  ghost predicate FilesOf(done: seq<TarEntry>, files: map<bytes, DiskNode>) {
    && (forall i :: 0 <= i < |done| ==> (done[i].name in files <==> !done[i].directory))
    && (forall p :: p in files ==> files[p].Regular? && exists i :: 0 <= i < |done| && done[i].name == p)
  }

  /** The disk holds exactly the given files, and folders everywhere else. */
  ghost predicate Holds(disk: Disk, files: map<bytes, DiskNode>) {
    && Closed(disk)
    && (forall p :: p in files ==> p in disk)
    && (forall p :: p in disk ==> disk[p] == if p in files then files[p] else Folder)
  }

  ghost predicate Reflects(disk: Disk, done: seq<TarEntry>, files: map<bytes, DiskNode>) {
    Covers(disk, done) && FilesOf(done, files) && Holds(disk, files)
  }

  lemma RootHasNoParent(p: bytes)
    ensures !Above(p, ROOT)
  {
    assert p + [SLASH] <= ROOT ==> (p + [SLASH])[|p|] == ROOT[|p|];
  }

  ghost predicate SomeFileAbove(done: seq<TarEntry>, e: TarEntry) {
    exists i :: 0 <= i < |done| && FileAbove(done[i], e)
  }

  lemma FileInIsListed(disk: Disk, done: seq<TarEntry>, files: map<bytes, DiskNode>, e: TarEntry)
    requires FilesOf(done, files) && Holds(disk, files)
    ensures SomeFileAbove(done, e) <==> exists q :: FileIn(disk, q) && Above(q, e.name)
  {
    hide Closed, Above;
    if SomeFileAbove(done, e) {
      var i :| 0 <= i < |done| && FileAbove(done[i], e);
      assert FileIn(disk, done[i].name) && Above(done[i].name, e.name);
    }
    if q :| FileIn(disk, q) && Above(q, e.name) {
      var i :| 0 <= i < |done| && done[i].name == q;
      assert FileAbove(done[i], e);
    }
  }

  lemma CoversMore(disk: Disk, more: Disk, done: seq<TarEntry>, e: TarEntry)
    requires Covers(disk, done)
    requires forall p :: p in more <==> p in disk || AtOrAbove(p, e.name)
    ensures Covers(more, done + [e])
  {
    hide AtOrAbove;
    forall p ensures Listed(done + [e], p) <==> Listed(done, p) || AtOrAbove(p, e.name) {
      ListedMore(done, e, p);
    }
    hide Listed;
  }

  lemma ListedMore(done: seq<TarEntry>, e: TarEntry, p: bytes)
    ensures Listed(done + [e], p) <==> Listed(done, p) || AtOrAbove(p, e.name)
  {
    hide AtOrAbove;
    var more := done + [e];
    if Listed(done, p) {
      var i :| 0 <= i < |done| && AtOrAbove(p, done[i].name);
      assert more[i] == done[i];
    }
    if AtOrAbove(p, e.name) {
      assert more[|done|] == e;
    }
  }

  lemma FilesOfMore(done: seq<TarEntry>, files: map<bytes, DiskNode>, e: TarEntry, file: DiskNode)
    requires FilesOf(done, files) && Follows(done, e) && file.Regular?
    ensures FilesOf(done + [e], if e.directory then files else files[e.name := file])
  {
    hide FileAbove;
    var more := done + [e];
    var grown := if e.directory then files else files[e.name := file];
    assert forall i :: 0 <= i < |done| ==> more[i] == done[i];
    assert more[|done|] == e;
    forall p | p in grown ensures exists i :: 0 <= i < |more| && more[i].name == p {
      if p != e.name {
        var i :| 0 <= i < |done| && done[i].name == p;
        assert more[i].name == p;
      }
    }
  }

  /** A directory member. */
  lemma PlaceDirectory(disk: Disk, done: seq<TarEntry>, files: map<bytes, DiskNode>, e: TarEntry, content: bytes)
    requires Reflects(disk, done, files) && Follows(done, e) && e.directory
    ensures var r := Place(disk, e, content);
            && (r.Err? <==> SomeFileAbove(done, e))
            && (r.Err? ==> r.error == CannotCreate)
            && (r.Ok? ==> Reflects(r.value, done + [e], files))
  {
    FileInIsListed(disk, done, files, e);
    FilesOfMore(done, files, e, Regular([], 0));
    NameUnused(done, files, e);
    hide SomeFileAbove, Follows, Listed, FilesOf, Above;
    if e.name == ROOT {
      forall p ensures !Above(p, ROOT) {
        RootHasNoParent(p);
      }
      CoversMore(disk, disk, done, e);
    } else {
      CreateDirAllIs(disk, e.name);
      var r := CreateDirAll(disk, e.name);
      hide CreateDirAll;
      if r.Ok? {
        CoversMore(disk, r.value, done, e);
      }
    }
  }

  lemma NameUnused(done: seq<TarEntry>, files: map<bytes, DiskNode>, e: TarEntry)
    requires FilesOf(done, files) && Follows(done, e)
    ensures e.name !in files
  {
  }

  /** A file's own name is free: no earlier member has it or stands below it. */
  lemma FilePathFree(disk: Disk, done: seq<TarEntry>, e: TarEntry)
    requires Covers(disk, done) && Follows(done, e) && !e.directory && Above(ROOT, e.name)
    ensures e.name !in disk
  {
    hide Above;
    RootHasNoParent(ROOT);
    forall i | 0 <= i < |done| ensures !AtOrAbove(e.name, done[i].name) {
      assert !FileAbove(e, done[i]);
    }
  }

  /** Putting a file where its folder has just been made. */
  lemma AddFile(disk: Disk, made: Disk, files: map<bytes, DiskNode>, name: bytes, file: DiskNode)
    requires Holds(disk, files) && Closed(made) && name !in disk && file.Regular?
    requires forall q :: FileIn(disk, q) ==> !Above(q, name)
    requires forall q :: q in made <==> q in disk || Above(q, name)
    requires forall q :: q in made ==> made[q] == if q in disk then disk[q] else Folder
    ensures var more := made[name := file];
            && name !in made
            && (forall q :: q in more <==> q in disk || AtOrAbove(q, name))
            && Holds(more, files[name := file])
  {
    var more := made[name := file];
    AboveParent(name, name);
    assert !Above(name, name);
    forall p | p in more && Parent(p).Some? ensures Parent(p).value in more && more[Parent(p).value].Folder? {
      if p == name {
        AboveParent(Parent(name).value, name);
      }
      assert Parent(p).value in made;
    }
    hide Above;
  }

  /** A file member. */
  lemma PlaceFile(disk: Disk, done: seq<TarEntry>, files: map<bytes, DiskNode>, e: TarEntry, content: bytes)
    requires Reflects(disk, done, files) && Follows(done, e) && !e.directory && Above(ROOT, e.name)
    ensures var r := Place(disk, e, content);
            && (r.Err? <==> SomeFileAbove(done, e))
            && (r.Err? ==> r.error == CannotCreate)
            && (r.Ok? ==> Reflects(r.value, done + [e],
                 files[e.name := Regular(content, ModeFor(Relative(e.name), false))]))
  {
    var file := Regular(content, ModeFor(Relative(e.name), false));
    hide ModeFor, Relative;
    FileInIsListed(disk, done, files, e);
    FilesOfMore(done, files, e, file);
    FilePathFree(disk, done, e);
    RootHasNoParent(ROOT);
    AboveParent(ROOT, e.name);
    var parent := Parent(e.name).value;
    forall q ensures Above(q, e.name) <==> AtOrAbove(q, parent) {
      AboveParent(q, e.name);
    }
    hide SomeFileAbove, Follows, Covers, FilesOf, Above, AtOrAbove;
    CreateDirAllIs(disk, parent);
    var made := CreateDirAll(disk, parent);
    hide CreateDirAll;
    if made.Ok? {
      AddFile(disk, made.value, files, e.name, file);
      CoversMore(disk, made.value[e.name := file], done, e);
    }
    hide Holds, Closed;
  }

  // ---------------------------------------------------------------------------------------------
  // The outcome of extraction
  // ---------------------------------------------------------------------------------------------

  /** No file stands above another member. */
  ghost predicate NoFileAbove(entries: seq<TarEntry>) {
    forall i, j :: 0 <= i < |entries| && 0 <= j < |entries| ==> !FileAbove(entries[i], entries[j])
  }

  /** As members arrive one by one, none has an earlier file above it. */
  ghost predicate Clear(done: seq<TarEntry>, rest: seq<TarEntry>)
    decreases |rest|
  {
    rest == [] || (!SomeFileAbove(done, rest[0]) && Clear(done + [rest[0]], rest[1..]))
  }

  /** The bytes of every member are there. */
  ghost predicate Stored(src: Stream, pos: nat, entries: seq<TarEntry>)
    decreases |entries|
  {
    entries == [] || (HasContent(src, pos, entries[0])
                      && Stored(src, pos + TAR_BLOCK + entries[0].size + Padding(entries[0].size), entries[1..]))
  }

  lemma OneMoved(done: seq<TarEntry>, rest: seq<TarEntry>)
    requires rest != []
    ensures done + rest == done + [rest[0]] + rest[1..]
    ensures (done + rest)[..|done|] == done && (done + rest)[|done|] == rest[0]
  {
  }

  /** One member: refused for a file above it, and otherwise on the disk. */
  lemma PlaceOutcome(src: Stream, pos: nat, disk: Disk, done: seq<TarEntry>, files: map<bytes, DiskNode>, e: TarEntry)
    requires HasContent(src, pos, e) && EntrySane(e) && Follows(done, e) && Reflects(disk, done, files)
    ensures var r := Place(disk, e, ContentAt(src, pos, e));
            && (r.Err? <==> SomeFileAbove(done, e))
            && (r.Err? ==> r.error == CannotCreate)
            && (r.Ok? ==> Reflects(r.value, done + [e], WithFile(src, pos, files, e)))
  {
    hide Reflects, Follows, SomeFileAbove, Place;
    if e.directory {
      PlaceDirectory(disk, done, files, e, ContentAt(src, pos, e));
    } else {
      PlaceFile(disk, done, files, e, ContentAt(src, pos, e));
    }
  }

  lemma {:induction false} PlaceAllOutcome(src: Stream, pos: nat, disk: Disk, done: seq<TarEntry>, rest: seq<TarEntry>,
                                           files: map<bytes, DiskNode>)
    requires Orderly(done + rest) && (forall e :: e in rest ==> EntrySane(e)) && Stored(src, pos, rest)
    requires Reflects(disk, done, files)
    ensures var r := PlaceAll(src, pos, disk, rest);
            && (r.Ok? <==> Clear(done, rest))
            && (r.Err? ==> r.error == CannotCreate)
            && (r.Ok? ==> Reflects(r.value, done + rest, FilesFrom(src, pos, files, rest)))
    decreases |rest|
  {
    hide EntrySane, Follows, Reflects, Place, SomeFileAbove, WithFile;
    if rest == [] {
      assert done + rest == done;
    } else {
      var e := rest[0];
      OneMoved(done, rest);
      PlaceOutcome(src, pos, disk, done, files, e);
      var r := Place(disk, e, ContentAt(src, pos, e));
      if r.Ok? {
        PlaceAllOutcome(src, pos + TAR_BLOCK + e.size + Padding(e.size), r.value, done + [e], rest[1..],
                        WithFile(src, pos, files, e));
      }
    }
  }

  lemma {:induction false} ClearIsNoFileAbove(done: seq<TarEntry>, rest: seq<TarEntry>)
    requires Orderly(done + rest)
    ensures Clear(done, rest) <==>
            forall i, j :: 0 <= i < |done + rest| && |done| <= j < |done + rest| ==>
              !FileAbove((done + rest)[i], (done + rest)[j])
    decreases |rest|
  {
    var all := done + rest;
    if rest != [] {
      var e := rest[0];
      OneMoved(done, rest);
      ClearIsNoFileAbove(done + [e], rest[1..]);
      assert Follows(all[..|done|], all[|done|]);
      forall i | |done| <= i < |all| ensures !FileAbove(all[i], e) {
        if i > |done| {
          assert Follows(all[..i], all[i]);
          assert all[..i][|done|] == e;
        }
      }
    }
  }

  lemma {:induction false} ScanStored(src: Stream, s: Scan)
    requires s.pos <= |src.data| && Counted(s) && ScanMembers(src, s).Ok?
    ensures var end := ScanMembers(src, s).value;
            s.entries <= end.entries && Stored(src, s.pos, end.entries[|s.entries|..])
    decreases |src.data| - s.pos
  {
    hide CheckTarHeader, EntrySane, NamesKnown, StoredSize;
    StepCounts(src, s);
    ScanExtends(src, s);
    var end := ScanMembers(src, s).value;
    var step := NextStep(src, s).value;
    var rest := end.entries[|s.entries|..];
    if step.EndMarker? {
      assert rest == [];
    } else {
      var t := step.next;
      MemberFacts(src, s);
      hide NextStep, Counted;
      ScanStored(src, t);
      assert rest[1..] == end.entries[|t.entries|..];
    }
  }

  /** Where the header of member `j` starts, and what follows it. */
  ghost predicate FileStoredAt(src: Stream, files: map<bytes, DiskNode>, pos: nat, e: TarEntry) {
    && HasContent(src, pos, e)
    && (!e.directory ==>
          e.name in files && files[e.name] == Regular(ContentAt(src, pos, e), ModeFor(Relative(e.name), false)))
  }

  ghost predicate AllStoredAt(src: Stream, files: map<bytes, DiskNode>, entries: seq<TarEntry>) {
    forall i :: 0 <= i < |entries| ==> FileStoredAt(src, files, StoredSize(entries[..i]), entries[i])
  }

  lemma StoredMore(src: Stream, done: seq<TarEntry>, files: map<bytes, DiskNode>, e: TarEntry)
    requires AllStoredAt(src, files, done) && Follows(done, e) && HasContent(src, StoredSize(done), e)
    ensures AllStoredAt(src, WithFile(src, StoredSize(done), files, e), done + [e])
  {
    hide HasContent, ModeFor, Relative, FileAbove, StoredSize;
    var more, grown := done + [e], WithFile(src, StoredSize(done), files, e);
    forall i | 0 <= i < |more| ensures FileStoredAt(src, grown, StoredSize(more[..i]), more[i]) {
      assert more[..i] == done[..i];
      if i < |done| {
        assert FileStoredAt(src, files, StoredSize(done[..i]), done[i]);
      } else {
        assert done[..i] == done;
      }
    }
  }

  lemma {:induction false} FilesFromAt(src: Stream, done: seq<TarEntry>, rest: seq<TarEntry>,
      files: map<bytes, DiskNode>)
    requires Orderly(done + rest) && Stored(src, StoredSize(done), rest) && AllStoredAt(src, files, done)
    ensures AllStoredAt(src, FilesFrom(src, StoredSize(done), files, rest), done + rest)
    decreases |rest|
  {
    hide AllStoredAt, HasContent, Follows, WithFile;
    if rest == [] {
      assert done + rest == done;
    } else {
      var e := rest[0];
      OneMoved(done, rest);
      assert Follows((done + rest)[..|done|], (done + rest)[|done|]);
      StoredMore(src, done, files, e);
      assert (done + [e])[..|done|] == done;
      FilesFromAt(src, done + [e], rest[1..], WithFile(src, StoredSize(done), files, e));
    }
  }

  lemma AcceptedMembers(src: Stream)
    requires FirstPass(src).Ok?
    ensures var entries := FirstPass(src).value;
            Orderly(entries) && Stored(src, 0, entries) && forall e :: e in entries ==> EntrySane(e)
  {
    hide ScanMembers, Stored, Follows, EntrySane, HasRequired, HasAssets, CheckTrailing;
    ScanOrderly(src, START);
    ScanStored(src, START);
    var entries := FirstPass(src).value;
    assert entries[0..] == entries;
  }

  lemma StartReflects()
    ensures Reflects(EXTRACTION_START.disk, [], map[])
  {
    if Parent(ROOT).Some? {
      RootHasNoParent(Parent(ROOT).value);
    }
  }

  /** The files on a disk are the file members. */
  ghost predicate OnlyFileMembers(disk: Disk, entries: seq<TarEntry>) {
    forall p :: FileIn(disk, p) ==> exists i :: 0 <= i < |entries| && entries[i].name == p && !entries[i].directory
  }

  lemma ReflectsFiles(src: Stream, disk: Disk, entries: seq<TarEntry>, files: map<bytes, DiskNode>)
    requires Reflects(disk, entries, files) && AllStoredAt(src, files, entries)
    ensures Covers(disk, entries) && OnlyFileMembers(disk, entries) && AllStoredAt(src, disk, entries)
  {
    hide HasContent, Listed, StoredSize, Closed;
    assert forall i :: 0 <= i < |entries| && !entries[i].directory ==> entries[i].name in files;
  }

  /**
   Extraction of an accepted stream succeeds exactly when no file member stands above another member. It then
   leaves every file's own bytes at its path, folders at and above the members, and nothing else.
   */
  lemma ExtractionOutcome(src: Stream)
    requires FirstPass(src).Ok?
    ensures var entries := FirstPass(src).value;
            var r := ExtractArchive(src);
            && (r.Ok? <==> NoFileAbove(entries))
            && (r.Err? ==> r.error == CannotCreate)
            && (r.Ok? ==>
                  && Covers(r.value, entries) && OnlyFileMembers(r.value, entries)
                  && AllStoredAt(src, r.value, entries))
  {
    hide FirstPass, ExtractArchive, Orderly, Stored, EntrySane, FileAbove, Reflects, OnlyFileMembers, FileStoredAt,
         Covers, PlaceAll, Clear, FilesFrom;
    var entries := FirstPass(src).value;
    TwoPassAgreement(src);
    AcceptedMembers(src);
    StartReflects();
    assert [] + entries == entries;
    PlaceAllOutcome(src, 0, EXTRACTION_START.disk, [], entries, map[]);
    ClearIsNoFileAbove([], entries);
    var r := ExtractArchive(src);
    if r.Ok? {
      FilesFromAt(src, [], entries, map[]);
      ReflectsFiles(src, r.value, entries, FilesFrom(src, 0, map[], entries));
    }
  }

  /** Every member but the root comes after its parent directory. */
  ghost predicate ParentsFirst(entries: seq<TarEntry>) {
    forall j :: 0 <= j < |entries| && Parent(entries[j].name).Some? ==>
      exists i :: 0 <= i < j && entries[i].name == Parent(entries[j].name).value
  }

  lemma OrderlyDistinct(entries: seq<TarEntry>, i: nat, k: nat)
    requires Orderly(entries) && i < |entries| && k < |entries|
    ensures i != k ==> entries[i].name != entries[k].name
  {
    hide Above;
    if i < k {
      assert Follows(entries[..k], entries[k]) && entries[..k][i] == entries[i];
    } else if k < i {
      assert Follows(entries[..i], entries[i]) && entries[..i][k] == entries[k];
    }
  }

  lemma {:induction false} NothingAbove(entries: seq<TarEntry>, i: nat, j: nat)
    requires Orderly(entries) && ParentsFirst(entries) && i < |entries| && j < |entries|
    ensures !FileAbove(entries[i], entries[j])
    decreases |entries[j].name|
  {
    hide Above;
    var f, e := entries[i], entries[j];
    AboveParent(f.name, e.name);
    if Parent(e.name).Some? {
      var k :| 0 <= k < j && entries[k].name == Parent(e.name).value;
      NothingAbove(entries, i, k);
      assert Follows(entries[..j], e) && entries[..j][k] == entries[k];
      OrderlyDistinct(entries, i, k);
    }
  }

  /** An accepted archive that lists every parent first has no file above a member, and so extracts. */
  lemma ParentsFirstExtracts(src: Stream)
    requires FirstPass(src).Ok? && ParentsFirst(FirstPass(src).value)
    ensures NoFileAbove(FirstPass(src).value)
    ensures ExtractArchive(src).Ok?
  {
    hide FirstPass, ExtractArchive, FileAbove, Orderly, ParentsFirst;
    var entries := FirstPass(src).value;
    AcceptedMembers(src);
    forall i, j | 0 <= i < |entries| && 0 <= j < |entries| ensures !FileAbove(entries[i], entries[j]) {
      NothingAbove(entries, i, j);
    }
    ExtractionOutcome(src);
  }
}
