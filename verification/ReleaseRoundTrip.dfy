/** What the verifier and the extractor make of an archive the packager wrote. */
module ReleaseRoundTrip {
  import opened Wrappers
  import opened Bytes
  import opened Paths
  import opened Ustar
  import opened UstarRoundTrip
  import opened ReleaseInventory
  import opened ReleaseArchive
  import opened ByteReaders
  import opened ReleaseTwoPass
  import opened ReleaseDisk
  import opened TarBlocks
  import Utf8

  // ---------------------------------------------------------------------------------------------
  // Names
  // ---------------------------------------------------------------------------------------------

  function MemberName(e: InventoryEntry): bytes {
    ROOT_SLASH + e.relative
  }

  lemma RootFacts()
    ensures |ROOT| == 7 && |ROOT_SLASH| == 8 && ROOT_SLASH[..7] == ROOT && ROOT_SLASH[7] == SLASH
    ensures forall i :: 0 <= i < 7 ==> 0x61 <= ROOT[i] <= 0x7A
    ensures Utf8.Valid(ROOT_SLASH)
    ensures Components(ROOT) == [ROOT] && PlainComponent(ROOT)
    ensures CleanText(ROOT_SLASH)
  {
    assert forall i :: 0 <= i < 7 ==> 0x61 <= ROOT[i] <= 0x7A;
    Utf8.ValidAscii(ROOT_SLASH);
    IndexOfIs(ROOT, SLASH, 7);
  }

  /** Printable ASCII around a path neither adds nor hides anything the verifier rejects. */
  lemma CleanAround(before: bytes, path: bytes, after: bytes)
    requires forall i :: 0 <= i < |before| ==> 0x20 <= before[i] < 0x7F && before[i] != BACKSLASH
    requires forall i :: 0 <= i < |after| ==> 0x20 <= after[i] < 0x7F && after[i] != BACKSLASH
    ensures CleanText(before + path + after) <==> CleanText(path)
  {
    var s := before + path + after;
    forall b ensures b == BACKSLASH || b == NUL ==> (b in s <==> b in path) {
      if b in path {
        var i :| 0 <= i < |path| && path[i] == b;
        assert s[|before| + i] == b;
      }
    }
    if Utf8.HasControl(path) {
      var i :| 0 <= i < |path| && Utf8.ControlAt(path, i);
      assert s[|before| + i] == path[i];
      assert i + 1 < |path| ==> s[|before| + i + 1] == path[i + 1];
      assert Utf8.ControlAt(s, |before| + i);
    }
    if Utf8.HasControl(s) {
      var i :| 0 <= i < |s| && Utf8.ControlAt(s, i);
      assert |before| <= i < |before| + |path|;
      assert Utf8.ControlAt(path, i - |before|);
    }
  }

  /** Archive names are the text the header round trip is about. */
  lemma ArchiveNameIsPackagerName(e: InventoryEntry)
    requires ReleaseEntry(e)
    ensures PackagerName(ArchiveName(e), e.directory)
  {
    hide Utf8.Valid, AllowedReleasePath, AllPlain, CleanText;
    RootFacts();
    Utf8.ValidConcat(ROOT_SLASH, e.relative);
    Utf8.ValidAscii([SLASH]);
    Utf8.ValidConcat(ROOT_SLASH + e.relative, [SLASH]);
    LastNotSlash(e);
  }

  lemma LastNotSlash(e: InventoryEntry)
    requires ReleaseEntry(e)
    ensures e.relative != [] && !EndsWithSlash(e.relative) && !StartsWithSlash(e.relative)
  {
    hide AllowedReleasePath, Utf8.Valid;
    EmptyComponents(e.relative);
  }

  /** An empty path, and a slash at either end, make an empty component. */
  lemma EmptyComponents(r: bytes)
    ensures r == [] || StartsWithSlash(r) || EndsWithSlash(r) ==> !AllPlain(Components(r))
  {
    assert Components([]) == [[]];
    if EndsWithSlash(r) {
      assert r == r[..|r| - 1] + [SLASH] + [];
      ComponentsConcat(r[..|r| - 1], []);
      assert !PlainComponent(Components(r)[|Components(r)| - 1]);
    } else if StartsWithSlash(r) {
      assert r == [] + [SLASH] + r[1..];
      ComponentsConcat([], r[1..]);
      assert !PlainComponent(Components(r)[0]);
    } else if r == [] {
      assert !PlainComponent(Components(r)[0]);
    }
  }

  /** The verifier accepts the name of an entry exactly when it is free of backslashes and control characters. */
  lemma EntryNameClean(e: InventoryEntry)
    requires ReleaseEntry(e)
    ensures CleanText(ArchiveName(e)) <==> CleanText(e.relative)
  {
    hide Components, AllPlain, AllowedReleasePath, CleanText;
    RootFacts();
    if e.directory {
      CleanAround(ROOT_SLASH, e.relative, [SLASH]);
    } else {
      assert ArchiveName(e) == ROOT_SLASH + e.relative + [];
      CleanAround(ROOT_SLASH, e.relative, []);
    }
  }

  lemma EntryNameStripped(e: InventoryEntry)
    requires ReleaseEntry(e)
    ensures StripSlash(ArchiveName(e)) == MemberName(e)
    ensures MemberName(e) == ROOT + [SLASH] + e.relative && MemberName(e)[0] != SLASH
  {
    hide Components, AllPlain, AllowedReleasePath, CleanText, Utf8.Valid;
    RootFacts();
    LastNotSlash(e);
  }

  lemma EntryParts(e: InventoryEntry)
    requires ReleaseEntry(e)
    ensures var parts := Components(MemberName(e)); AllPlain(parts) && parts[0] == ROOT
  {
    hide Components, AllowedReleasePath, CleanText, PlainComponent, Utf8.Valid;
    RootFacts();
    EntryNameStripped(e);
    ComponentsConcat(ROOT, e.relative);
    assert Components(MemberName(e)) == [ROOT] + Components(e.relative);
  }

  lemma EntryNameSafe(e: InventoryEntry)
    requires ReleaseEntry(e) && |ArchiveName(e)| <= PATH_LIMIT
    ensures SafeArchiveName(ArchiveName(e)) ==
            if CleanText(e.relative) then Ok(MemberName(e)) else Err(InvalidPath)
  {
    hide Components, AllPlain, Join, StripSlash, CleanText, ReleaseEntry;
    EntryNameClean(e);
    EntryNameStripped(e);
    EntryParts(e);
    JoinComponents(MemberName(e));
  }

  // ---------------------------------------------------------------------------------------------
  // One member
  // ---------------------------------------------------------------------------------------------

  function TarEntryFor(e: InventoryEntry): TarEntry {
    TarEntry(MemberName(e), e.directory, if e.directory then 0 else e.size, ModeFor(e.relative, e.directory))
  }

  const ROOT_ENTRY := TarEntry(ROOT, true, 0, EXECUTABLE_MODE)

  /** What the packager does not check and the verifier does: clean text, and no directory split at its last slash. */
  predicate Readable(e: InventoryEntry) {
    CleanText(e.relative) && !SplitAtTrailingSlash(ArchiveName(e), e.directory)
  }

  function HeaderOf(e: InventoryEntry): Result<bytes, ArchiveError> {
    MakeTarHeader(ArchiveName(e), e.directory, e.size, ModeFor(e.relative, e.directory))
  }

  lemma HeaderNameLength(e: InventoryEntry)
    requires HeaderOf(e).Ok?
    ensures |ArchiveName(e)| <= 256
  {
  }

  const BINARIES: seq<bytes> :=
    [Text("lumistripe-web"), Text("lumistripe-engine"), Text("lumistripe"), Text("lumistripe-deploy-helper")]

  /** Directories and binaries are `rwxr-xr-x`, other files `rw-r--r--`. */
  predicate IsMode(mode: nat, relative: bytes, directory: bool) {
    if directory || relative in BINARIES then mode == 7 * 64 + 5 * 8 + 5 else mode == 6 * 64 + 4 * 8 + 4
  }

  lemma ModeIs(relative: bytes, directory: bool)
    ensures IsMode(ModeFor(relative, directory), relative, directory)
  {
  }

  lemma ModesFit(e: InventoryEntry)
    ensures ModeFor(e.relative, e.directory) < 0x200
    ensures (ModeFor(e.relative, e.directory) / 0x200) % 8 == 0
    ensures !e.directory ==> (Executable(ModeFor(e.relative, e.directory)) <==> e.relative in RELEASE_BINARIES)
  {
  }

  /** Names under the root keep their place in the allowed list. */
  lemma PlaceAllowed(e: InventoryEntry)
    requires ReleaseEntry(e)
    ensures Relative(MemberName(e)) == e.relative
    ensures if e.directory then AllowedDirectory(MemberName(e)) else AllowedFile(MemberName(e))
    ensures MemberName(e) != ROOT
  {
    hide Components, AllPlain, Utf8.Valid;
    assert ROOT_SLASH <= MemberName(e) && MemberName(e)[|ROOT_SLASH|..] == e.relative;
    RootFacts();
    assert |MemberName(e)| >= 8;
    if !e.directory && STATIC_SLASH <= e.relative && e.relative != STATIC_SLASH {
      UnderStatic(e.relative);
    }
  }

  lemma UnderStatic(relative: bytes)
    requires STATIC_SLASH <= relative && relative != STATIC_SLASH
    ensures ROOT_SLASH + STATIC_SLASH <= ROOT_SLASH + relative && ROOT_SLASH + relative != ROOT_SLASH + STATIC_SLASH
  {
    assert relative == STATIC_SLASH + relative[|STATIC_SLASH|..];
    assert ROOT_SLASH + relative == ROOT_SLASH + STATIC_SLASH + relative[|STATIC_SLASH|..];
  }

  /** Nothing seen so far stands in the way of a member. */
  predicate Fits(name: bytes, directory: bool, seen: set<bytes>, types: map<bytes, bool>) {
    && name !in seen
    && (Parent(name).Some? && Parent(name).value in types ==> types[Parent(name).value])
    && (!directory ==> forall p :: p in types.Keys ==> !Above(name, p))
  }

  lemma CheckedHeader(h: bytes, e: InventoryEntry, seen: set<bytes>, types: map<bytes, bool>)
    requires |h| == TAR_BLOCK && CheckKind(h) == Ok(e.directory)
    requires ArchiveMemberName(h, e.directory).Ok? <==> Readable(e)
    requires Readable(e) ==> ArchiveMemberName(h, e.directory) == Ok(MemberName(e))
    requires CheckNumbers(h, e.directory) == Ok((ModeFor(e.relative, e.directory), if e.directory then 0 else e.size))
    requires ReleaseEntry(e) && Fits(MemberName(e), e.directory, seen, types)
    ensures CheckTarHeader(h, seen, types).Ok? <==> Readable(e)
    ensures Readable(e) ==> CheckTarHeader(h, seen, types) == Ok(TarEntryFor(e))
  {
    hide CheckKind, ArchiveMemberName, CheckNumbers, AllowedDirectory, AllowedFile, Relative, Executable, Readable,
      ReleaseEntry, ModeFor, Above, MemberName;
    PlaceAllowed(e);
    ModesFit(e);
  }

  lemma EntryNameReadBack(e: InventoryEntry)
    requires ReleaseEntry(e) && HeaderOf(e).Ok?
    ensures var r := ArchiveMemberName(HeaderOf(e).value, e.directory);
            && (r.Ok? <==> Readable(e))
            && (Readable(e) ==> r == Ok(MemberName(e)))
  {
    hide MakeTarHeader, ArchiveMemberName, SplitAtTrailingSlash, CleanText, ArchiveName, ModeFor, SafeArchiveName,
      ReleaseEntry, PackagerName;
    ArchiveNameIsPackagerName(e);
    HeaderNameLength(e);
    EntryNameSafe(e);
    NameRoundTrip(ArchiveName(e), e.directory, e.size, ModeFor(e.relative, e.directory));
  }

  /** The verifier reads back the entry the packager described, or refuses an entry that is not readable. */
  lemma HeaderRoundTrip(e: InventoryEntry, seen: set<bytes>, types: map<bytes, bool>)
    requires ReleaseEntry(e) && HeaderOf(e).Ok? && Fits(MemberName(e), e.directory, seen, types)
    ensures CheckTarHeader(HeaderOf(e).value, seen, types).Ok? <==> Readable(e)
    ensures Readable(e) ==> CheckTarHeader(HeaderOf(e).value, seen, types) == Ok(TarEntryFor(e))
  {
    hide MakeTarHeader, CheckKind, ArchiveMemberName, CheckNumbers, CheckTarHeader, ArchiveName, ModeFor, Readable,
         Fits;
    var name, mode := ArchiveName(e), ModeFor(e.relative, e.directory);
    ModesFit(e);
    KindRoundTrip(name, e.directory, e.size, mode);
    EntryNameReadBack(e);
    NumbersRoundTrip(name, e.directory, e.size, mode);
    hide ReleaseEntry;
    CheckedHeader(HeaderOf(e).value, e, seen, types);
  }

  // ---------------------------------------------------------------------------------------------
  // The member loop over a packaged archive
  // ---------------------------------------------------------------------------------------------

  function TarEntries(es: seq<InventoryEntry>): seq<TarEntry> {
    seq(|es|, i requires 0 <= i < |es| => TarEntryFor(es[i]))
  }

  /** The loop has read the root and then exactly `done`. */
  ghost predicate Tracks(s: Scan, done: seq<InventoryEntry>) {
    s.entries == [ROOT_ENTRY] + TarEntries(done) && NamesKnown(s)
  }

  lemma AboveUnderRoot(a: InventoryEntry, b: InventoryEntry)
    ensures Above(MemberName(a), MemberName(b)) <==> Above(a.relative, b.relative)
    ensures MemberName(a) == MemberName(b) <==> a.relative == b.relative
  {
    var m, n := MemberName(a), MemberName(b);
    assert m[|ROOT_SLASH|..] == a.relative && n[|ROOT_SLASH|..] == b.relative;
    if Above(m, n) {
      assert (m + [SLASH])[|ROOT_SLASH|..] == a.relative + [SLASH];
      assert n[..|m| + 1] == m + [SLASH];
      assert b.relative[..|a.relative| + 1] == n[..|m| + 1][|ROOT_SLASH|..];
    }
    if Above(a.relative, b.relative) {
      assert n == ROOT_SLASH + (a.relative + [SLASH]) + b.relative[|a.relative| + 1..];
    }
  }

  /** A name seen so far is the root or an earlier entry. */
  lemma SeenName(s: Scan, done: seq<InventoryEntry>, p: bytes) returns (i: int)
    requires Tracks(s, done) && p in s.types
    ensures -1 <= i < |done|
    ensures if i == -1 then p == ROOT && s.types[p] else p == MemberName(done[i]) && s.types[p] == done[i].directory
  {
    hide MemberName, ModeFor;
    var k :| 0 <= k < |s.entries| && s.entries[k].name == p;
    i := k - 1;
    if i >= 0 {
      assert s.entries[k] == TarEntryFor(done[i]);
    }
  }

  lemma EntriesDiffer(es: seq<InventoryEntry>, i: nat, j: nat)
    requires Ascending(es) && i < j < |es|
    ensures es[i].relative != es[j].relative
  {
    hide Less;
    LessIrreflexive(es[j].relative);
    assert Less(es[i].relative, es[j].relative);
  }

  /** What the verifier compares between an entry and an earlier one. */
  ghost predicate Compatible(d: InventoryEntry, e: InventoryEntry) {
    && d.relative != e.relative
    && (Above(d.relative, e.relative) && Parent(MemberName(e)) == Some(MemberName(d)) ==> d.directory)
    && (Above(e.relative, d.relative) ==> e.directory)
  }

  /** Release entries that the verifier can accept in this order. */
  ghost predicate Admissible(all: seq<InventoryEntry>) {
    && (forall i :: 0 <= i < |all| ==> ReleaseEntry(all[i]))
    && (forall i, j :: 0 <= i < j < |all| ==> Compatible(all[i], all[j]))
  }

  lemma TreeAdmissible(all: seq<InventoryEntry>)
    requires TreeShaped(all)
    ensures Admissible(all)
  {
    hide ReleaseEntry, Above, MemberName, Ascending;
    forall i, j | 0 <= i < j < |all| ensures Compatible(all[i], all[j]) {
      EntriesDiffer(all, i, j);
      assert all[i] in all && all[j] in all;
    }
  }

  /** In an admissible inventory nothing earlier stands in the way of an entry. */
  lemma NextFits(s: Scan, all: seq<InventoryEntry>, k: nat)
    requires Admissible(all) && k < |all| && Tracks(s, all[..k])
    ensures Fits(MemberName(all[k]), all[k].directory, s.seen, s.types)
  {
    hide ReleaseEntry, Above, MemberName;
    var e := all[k];
    PlaceAllowed(e);
    forall p | p in s.types
      ensures p != MemberName(e)
      ensures Parent(MemberName(e)) == Some(p) ==> s.types[p]
      ensures !e.directory ==> !Above(MemberName(e), p)
    {
      var i := SeenName(s, all[..k], p);
      if i >= 0 {
        assert Compatible(all[i], e);
        AboveUnderRoot(all[i], e);
        AboveUnderRoot(e, all[i]);
        AboveParent(p, MemberName(e));
      } else {
        RootHasNoParent(MemberName(e));
      }
    }
  }

  /** Where a written member lies in the archive. */
  lemma MemberLayout(written: bytes, e: InventoryEntry, more: bytes, data: bytes)
    requires WriteMember(written, e) == Ok(more) && more <= data
    ensures HeaderOf(e).Ok? && |written| + TAR_BLOCK <= |data|
    ensures data[|written|..|written| + TAR_BLOCK] == HeaderOf(e).value
    ensures var stored := if e.directory then 0 else e.size;
            && |more| == |written| + TAR_BLOCK + stored + Padding(stored) <= EXPANDED_LIMIT
            && (!e.directory ==> data[|written| + TAR_BLOCK..|written| + TAR_BLOCK + stored] == e.content)
  {
    hide MakeTarHeader, ArchiveName, ModeFor;
    var header := HeaderOf(e).value;
    assert data[..|more|] == more;
    if !e.directory {
      assert more == written + header + e.content + Repeat(NUL, Padding(e.size));
    }
  }

  lemma HeaderNotZero(e: InventoryEntry)
    requires HeaderOf(e).Ok?
    ensures !AllZero(HeaderOf(e).value)
  {
    hide MakeTarHeader, ArchiveName, ModeFor;
    WrittenFields(ArchiveName(e), e.directory, e.size, ModeFor(e.relative, e.directory));
    assert HeaderOf(e).value[156] != NUL;
  }

  /** The loop state after one more entry. */
  function Advance(s: Scan, e: InventoryEntry, more: bytes): Scan {
    Scan(|more|, |more|, s.entries + [TarEntryFor(e)], s.seen + {MemberName(e)}, s.types[MemberName(e) := e.directory])
  }

  /** The loop reads a readable member as the entry it was written for, and stops at any other. */
  lemma NextMember(src: Stream, s: Scan, written: bytes, e: InventoryEntry, more: bytes)
    requires WriteMember(written, e) == Ok(more) && more <= src.data
    requires s.pos == s.expanded == |written| && |s.entries| < ENTRY_LIMIT
    requires ReleaseEntry(e) && Fits(MemberName(e), e.directory, s.seen, s.types)
    ensures Readable(e) ==> NextStep(src, s) == Ok(Member(Advance(s, e, more)))
    ensures !Readable(e) ==> NextStep(src, s).Err?
  {
    hide CheckTarHeader, MakeTarHeader, ArchiveName, ModeFor, Readable, AllZero, Fits, ReleaseEntry, MemberName,
         WriteMember;
    MemberLayout(written, e, more, src.data);
    HeaderNotZero(e);
    HeaderRoundTrip(e, s.seen, s.types);
  }

  predicate AllReadable(es: seq<InventoryEntry>) {
    forall i :: 0 <= i < |es| ==> Readable(es[i])
  }

  lemma AllReadableCons(e: InventoryEntry, es: seq<InventoryEntry>)
    ensures AllReadable([e] + es) <==> Readable(e) && AllReadable(es)
  {
    hide Readable;
    var all := [e] + es;
    assert all[0] == e;
    if AllReadable(all) {
      forall i | 0 <= i < |es| ensures Readable(es[i]) {
        assert es[i] == all[i + 1];
      }
    }
  }

  lemma {:induction false} PackageExtends(written: bytes, es: seq<InventoryEntry>)
    requires PackageMembers(written, es).Ok?
    ensures written <= PackageMembers(written, es).value
    decreases |es|
  {
    hide MemberBytes;
    if es != [] {
      PackageExtends(WriteMember(written, es[0]).value, es[1..]);
    }
  }

  lemma AdvanceTracks(s: Scan, done: seq<InventoryEntry>, e: InventoryEntry, more: bytes)
    requires Tracks(s, done) && MemberName(e) !in s.seen
    ensures Tracks(Advance(s, e, more), done + [e])
  {
    hide MemberName, ModeFor;
    var t := Advance(s, e, more);
    assert t.entries == [ROOT_ENTRY] + TarEntries(done + [e]);
    assert t.entries[|s.entries|] == TarEntryFor(e);
    assert forall i :: 0 <= i < |s.entries| ==> t.entries[i] == s.entries[i];
  }

  /** The loop reads every entry of a readable inventory, and refuses any other inventory. */
  lemma {:induction false} ScanPackaged(src: Stream, s: Scan, written: bytes, all: seq<InventoryEntry>, k: nat)
    returns (end: Scan)
    requires k <= |all| && Admissible(all) && |all| < ENTRY_LIMIT && Tracks(s, all[..k])
    requires s.pos == s.expanded == |written| <= |src.data|
    requires PackageMembers(written, all[k..]).Ok? && PackageMembers(written, all[k..]).value <= src.data
    ensures AllReadable(all[k..]) ==>
              && Tracks(end, all) && end.pos == end.expanded == |PackageMembers(written, all[k..]).value|
              && ScanMembers(src, s) == ScanMembers(src, end)
    ensures !AllReadable(all[k..]) ==> ScanMembers(src, s).Err?
    ensures end.pos <= |src.data|
    decreases |all| - k
  {
    hide Readable, NextStep, WriteMember, ReleaseEntry, Fits, NamesKnown, Compatible;
    if k == |all| {
      end := s;
      assert all[..k] == all;
    } else {
      var e := all[k];
      assert all[k..][0] == e && all[k..][1..] == all[k + 1..];
      var more := WriteMember(written, e).value;
      PackageExtends(more, all[k + 1..]);
      NextFits(s, all, k);
      NextMember(src, s, written, e, more);
      if Readable(e) {
        AdvanceFits(s, all, k, more);
        end := ScanPackaged(src, Advance(s, e, more), more, all, k + 1);
        AllReadableCons(e, all[k + 1..]);
        assert all[k..] == [e] + all[k + 1..];
      } else {
        end := s;
      }
    }
  }

  lemma AdvanceFits(s: Scan, all: seq<InventoryEntry>, k: nat, more: bytes)
    requires k < |all| && Tracks(s, all[..k]) && Fits(MemberName(all[k]), all[k].directory, s.seen, s.types)
    ensures Tracks(Advance(s, all[k], more), all[..k + 1])
  {
    hide MemberName, Tracks, Advance, Above;
    assert all[..k + 1] == all[..k] + [all[k]];
    AdvanceTracks(s, all[..k], all[k], more);
  }

  // ---------------------------------------------------------------------------------------------
  // The whole archive
  // ---------------------------------------------------------------------------------------------

  lemma RootHeader()
    ensures MakeTarHeader(ROOT_SLASH, true, 0, EXECUTABLE_MODE).Ok?
    ensures var h := MakeTarHeader(ROOT_SLASH, true, 0, EXECUTABLE_MODE).value;
            CheckTarHeader(h, {}, map[]) == Ok(ROOT_ENTRY) && !AllZero(h)
  {
    hide MakeTarHeader, CheckKind, ArchiveMemberName, CheckNumbers, Utf8.Valid, CleanText, Components;
    RootFacts();
    assert PackagerName(ROOT_SLASH, true);
    MakeTarHeaderSucceeds(ROOT_SLASH, true, 0, EXECUTABLE_MODE);
    KindRoundTrip(ROOT_SLASH, true, 0, EXECUTABLE_MODE);
    NameRoundTrip(ROOT_SLASH, true, 0, EXECUTABLE_MODE);
    NumbersRoundTrip(ROOT_SLASH, true, 0, EXECUTABLE_MODE);
    WrittenFields(ROOT_SLASH, true, 0, EXECUTABLE_MODE);
    RootNameSafe();
    var h := MakeTarHeader(ROOT_SLASH, true, 0, EXECUTABLE_MODE).value;
    assert h[156] != NUL;
  }

  lemma RootNameSafe()
    ensures SafeArchiveName(ROOT_SLASH) == Ok(ROOT)
  {
    RootFacts();
    assert StripSlash(ROOT_SLASH) == ROOT;
    JoinComponents(ROOT);
  }

  /** The state after the root header. */
  const AFTER_ROOT: Scan := Scan(TAR_BLOCK, TAR_BLOCK, [ROOT_ENTRY], {ROOT}, map[ROOT := true])

  lemma FirstMember(src: Stream, header: bytes)
    requires MakeTarHeader(ROOT_SLASH, true, 0, EXECUTABLE_MODE) == Ok(header) && header <= src.data
    ensures NextStep(src, START) == Ok(Member(AFTER_ROOT))
    ensures Tracks(AFTER_ROOT, [])
  {
    hide MakeTarHeader, CheckTarHeader, AllZero;
    RootHeader();
    assert src.data[0..TAR_BLOCK] == header;
    assert START.entries + [ROOT_ENTRY] == AFTER_ROOT.entries;
    assert START.seen + {ROOT} == AFTER_ROOT.seen;
    assert START.types[ROOT := true] == AFTER_ROOT.types;
    assert AFTER_ROOT.entries == [ROOT_ENTRY] + TarEntries([]);
    assert AFTER_ROOT.entries[0].name == ROOT;
  }

  /** Zeros after the last member end the archive when the limit leaves room for another block. */
  lemma EndOfMembers(src: Stream, end: Scan, members: bytes, zeros: nat)
    requires src.data == members + Repeat(NUL, zeros) && zeros >= 2 * TAR_BLOCK
    requires end.pos == end.expanded == |members| <= EXPANDED_LIMIT
    ensures |src.data| >= |members| + 2 * TAR_BLOCK && AllZero(src.data[|members| + 2 * TAR_BLOCK..])
    ensures ScanMembers(src, end) ==
            if |members| + TAR_BLOCK > EXPANDED_LIMIT then Err(ExpansionLimit)
            else Ok(end.(pos := |members| + 2 * TAR_BLOCK, expanded := |members| + 2 * TAR_BLOCK))
  {
    hide CheckTarHeader;
    assert AllZero(src.data[|members|..|members| + TAR_BLOCK]);
    assert AllZero(src.data[|members| + TAR_BLOCK..|members| + 2 * TAR_BLOCK]);
  }

  /** The padded archive is a whole number of records. */
  lemma PackagedLength(es: seq<InventoryEntry>)
    requires PackageRelease(es).Ok?
    ensures |PackageRelease(es).value| % TAR_RECORD == 0
  {
    hide MakeTarHeader, PackageMembers;
  }

  lemma {:induction false} MembersWithinLimit(written: bytes, es: seq<InventoryEntry>)
    requires |written| <= EXPANDED_LIMIT && PackageMembers(written, es).Ok?
    ensures |PackageMembers(written, es).value| <= EXPANDED_LIMIT
    decreases |es|
  {
    hide MemberBytes;
    if es != [] {
      MembersWithinLimit(WriteMember(written, es[0]).value, es[1..]);
    }
  }

  predicate ListsFile(es: seq<InventoryEntry>, relative: bytes) {
    exists i :: 0 <= i < |es| && es[i].relative == relative && !es[i].directory
  }

  /** The files and the assets the verifier insists on. */
  predicate ListsRequired(es: seq<InventoryEntry>) {
    && (forall r :: r in REQUIRED_FILES ==> ListsFile(es, r))
    && (exists i :: 0 <= i < |es| && ASSETS_SLASH <= es[i].relative)
  }

  lemma TracksFile(s: Scan, es: seq<InventoryEntry>, relative: bytes)
    requires Tracks(s, es)
    ensures IsFile(s.types, ROOT_SLASH + relative) <==> ListsFile(es, relative)
  {
    hide NamesKnown, ModeFor;
    if IsFile(s.types, ROOT_SLASH + relative) {
      var i := SeenName(s, es, ROOT_SLASH + relative);
      assert MemberName(es[i])[|ROOT_SLASH|..] == relative && MemberName(es[i])[|ROOT_SLASH|..] == es[i].relative;
    }
    if i :| 0 <= i < |es| && es[i].relative == relative && !es[i].directory {
      TracksEntry(s, es, i);
    }
  }

  lemma TracksEntry(s: Scan, es: seq<InventoryEntry>, i: nat)
    requires Tracks(s, es) && i < |es|
    ensures MemberName(es[i]) in s.types && s.types[MemberName(es[i])] == es[i].directory
  {
    hide MemberName, ModeFor;
    assert s.entries[i + 1] == TarEntryFor(es[i]);
  }

  lemma TracksRequired(s: Scan, es: seq<InventoryEntry>)
    requires Tracks(s, es)
    ensures IsDirectory(s.types, ROOT)
    ensures HasRequired(s.types) && HasAssets(s.types) <==> ListsRequired(es)
  {
    hide IsFile, ListsFile;
    assert s.entries[0] == ROOT_ENTRY;
    TracksRequiredFiles(s, es);
    TracksAssets(s, es);
  }

  lemma TracksRequiredFiles(s: Scan, es: seq<InventoryEntry>)
    requires Tracks(s, es)
    ensures HasRequired(s.types) <==> forall r :: r in REQUIRED_FILES ==> ListsFile(es, r)
  {
    hide IsFile, ListsFile, Tracks;
    forall r ensures IsFile(s.types, ROOT_SLASH + r) <==> ListsFile(es, r) {
      TracksFile(s, es, r);
    }
  }

  lemma TracksAssets(s: Scan, es: seq<InventoryEntry>)
    requires Tracks(s, es)
    ensures HasAssets(s.types) <==> exists i :: 0 <= i < |es| && ASSETS_SLASH <= es[i].relative
  {
    hide Tracks;
    if path :| path in s.types.Keys && ROOT_SLASH + ASSETS_SLASH <= path {
      var i := SeenName(s, es, path);
      assert |path| > |ROOT|;
      assert ASSETS_SLASH <= es[i].relative by {
        assert es[i].relative == path[|ROOT_SLASH|..];
      }
    }
    if i :| 0 <= i < |es| && ASSETS_SLASH <= es[i].relative {
      TracksEntry(s, es, i);
      assert ROOT_SLASH + ASSETS_SLASH <= MemberName(es[i]);
    }
  }

  /** The root and the members of an inventory, without an end. */
  function Members(es: seq<InventoryEntry>): Result<bytes, ArchiveError> {
    var root :- MakeTarHeader(ROOT_SLASH, true, 0, EXECUTABLE_MODE);
    PackageMembers(root, es)
  }

  /** What may stand between the members and the end of the stream: the limit leaves out one of two zero blocks. */
  predicate ZerosFit(length: nat, zeros: nat) {
    length + TAR_BLOCK <= EXPANDED_LIMIT && (zeros == 2 * TAR_BLOCK || length + zeros <= EXPANDED_LIMIT)
  }

  /**
   Members followed by any number of zeros that makes an end marker are accepted exactly when they are readable, the
   required files are among them and the zeros fit; the verifier then lists the root and every entry, in order, with
   kind, size and mode.
   */
  lemma MembersAccepted(es: seq<InventoryEntry>, zeros: nat)
    requires Admissible(es) && |es| < ENTRY_LIMIT && Members(es).Ok? && zeros >= 2 * TAR_BLOCK
    ensures var members := Members(es).value;
            var pass := FirstPass(Stream(members + Repeat(NUL, zeros), false));
            && (pass.Ok? <==> AllReadable(es) && ListsRequired(es) && ZerosFit(|members|, zeros))
            && (pass.Ok? ==> pass.value == [ROOT_ENTRY] + TarEntries(es))
  {
    hide MakeTarHeader, NextStep, AllReadable, ListsRequired, HasRequired, HasAssets, IsDirectory, PackageMembers,
         ScanMembers,
      NamesKnown, Admissible, AllZero, Above;
    var root := MakeTarHeader(ROOT_SLASH, true, 0, EXECUTABLE_MODE).value;
    var members := PackageMembers(root, es).value;
    var src := Stream(members + Repeat(NUL, zeros), false);
    MembersWithinLimit(root, es);
    PackageExtends(root, es);
    FirstMember(src, root);
    assert es[0..] == es;
    var end := ScanPackaged(src, AFTER_ROOT, root, es, 0);
    ScanFromRoot(src);
    if AllReadable(es) {
      EndOfMembers(src, end, members, zeros);
      TracksRequired(end, es);
    }
  }

  /** What decides whether the verifier accepts a packaged inventory: everything here can be seen before packaging. */
  predicate Acceptable(es: seq<InventoryEntry>, length: nat) {
    AllReadable(es) && ListsRequired(es) && length <= EXPANDED_LIMIT
  }

  /** A packaged inventory is accepted exactly when it is acceptable: its padded length has to be within the limit. */
  lemma PackagedAccepted(es: seq<InventoryEntry>)
    requires Admissible(es) && |es| < ENTRY_LIMIT && PackageRelease(es).Ok?
    ensures var data := PackageRelease(es).value;
            && (FirstPass(Stream(data, false)).Ok? <==> Acceptable(es, |data|))
            && (FirstPass(Stream(data, false)).Ok? ==>
                  FirstPass(Stream(data, false)).value == [ROOT_ENTRY] + TarEntries(es))
  {
    hide MakeTarHeader, PackageMembers, FirstPass, AllReadable, ListsRequired, Admissible;
    var members := Members(es).value;
    var zeros := 2 * TAR_BLOCK + RecordPadding(|members| + 2 * TAR_BLOCK);
    assert PackageRelease(es).value == members + Repeat(NUL, zeros);
    PackagedLength(es);
    MembersAccepted(es, zeros);
    WholeRecords(|members|, zeros);
  }

  /** No whole number of records lies between the limit and one block beyond it. */
  lemma WholeRecords(length: nat, zeros: nat)
    requires zeros >= 2 * TAR_BLOCK && (length + zeros) % TAR_RECORD == 0
    ensures ZerosFit(length, zeros) <==> length + zeros <= EXPANDED_LIMIT
  {
    if zeros == 2 * TAR_BLOCK && length + TAR_BLOCK <= EXPANDED_LIMIT {
      assert length + zeros == TAR_RECORD * ((length + zeros) / TAR_RECORD);
    }
  }

  lemma ScanFromRoot(src: Stream)
    requires NextStep(src, START) == Ok(Member(AFTER_ROOT)) && AFTER_ROOT.pos <= |src.data|
    ensures ScanMembers(src, START) == ScanMembers(src, AFTER_ROOT)
  {
    hide NextStep;
  }

  // ---------------------------------------------------------------------------------------------
  // The tree on the other side
  // ---------------------------------------------------------------------------------------------

  /** The bytes of entry `i` lie where the extracting pass takes them. */
  ghost predicate ContentInPlace(src: Stream, pos: nat, e: InventoryEntry) {
    !e.directory ==> HasContent(src, pos, TarEntryFor(e)) && ContentAt(src, pos, TarEntryFor(e)) == e.content
  }

  ghost function HeaderOffset(es: seq<InventoryEntry>, i: nat): nat
    requires i <= |es|
  {
    StoredSize([ROOT_ENTRY] + TarEntries(es[..i]))
  }

  lemma OffsetMore(es: seq<InventoryEntry>, i: nat)
    requires i < |es|
    ensures var stored := if es[i].directory then 0 else es[i].size;
            HeaderOffset(es, i + 1) == HeaderOffset(es, i) + TAR_BLOCK + stored + Padding(stored)
  {
    hide MemberName, ModeFor;
    var before, after := [ROOT_ENTRY] + TarEntries(es[..i]), [ROOT_ENTRY] + TarEntries(es[..i + 1]);
    assert after[..|after| - 1] == before;
    assert after[|after| - 1] == TarEntryFor(es[i]);
  }

  lemma {:induction false} ContentsInPlace(src: Stream, written: bytes, es: seq<InventoryEntry>, k: nat)
    requires k <= |es| && |written| == HeaderOffset(es, k)
    requires PackageMembers(written, es[k..]).Ok? && PackageMembers(written, es[k..]).value <= src.data
    ensures forall i :: k <= i < |es| ==> ContentInPlace(src, HeaderOffset(es, i), es[i])
    decreases |es| - k
  {
    hide WriteMember, HeaderOffset, MakeTarHeader, MemberName, ModeFor;
    if k < |es| {
      var e := es[k];
      assert es[k..][0] == e && es[k..][1..] == es[k + 1..];
      var more := WriteMember(written, e).value;
      PackageExtends(more, es[k + 1..]);
      MemberLayout(written, e, more, src.data);
      OffsetMore(es, k);
      ContentsInPlace(src, more, es, k + 1);
    }
  }

  lemma StartOffset(es: seq<InventoryEntry>)
    ensures HeaderOffset(es, 0) == TAR_BLOCK
  {
    var first := [ROOT_ENTRY] + TarEntries(es[..0]);
    assert first == [ROOT_ENTRY] && first[..0] == [];
    assert StoredSize([]) == 0 && Padding(0) == 0;
  }

  lemma TreeHasNoFileAbove(es: seq<InventoryEntry>)
    requires TreeShaped(es)
    ensures NoFileAbove([ROOT_ENTRY] + TarEntries(es))
  {
    hide Above, MemberName, ModeFor, ReleaseEntry, Ascending;
    var entries := [ROOT_ENTRY] + TarEntries(es);
    forall i, j | 0 <= i < |entries| && 0 <= j < |entries| ensures !FileAbove(entries[i], entries[j]) {
      if i > 0 {
        if j > 0 {
          AboveUnderRoot(es[i - 1], es[j - 1]);
          assert es[i - 1] in es && es[j - 1] in es;
        } else {
          RootHasNoParent(entries[i].name);
        }
      }
    }
  }

  predicate Shows(listed: TarEntry, e: InventoryEntry) {
    && listed.name == Text("release") + [SLASH] + e.relative && listed.directory == e.directory
    && listed.size == (if e.directory then 0 else e.size) && IsMode(listed.mode, e.relative, e.directory)
  }

  predicate ShowsAll(listed: seq<TarEntry>, es: seq<InventoryEntry>) {
    && |listed| == |es| + 1 && listed[0] == TarEntry(Text("release"), true, 0, 7 * 64 + 5 * 8 + 5)
    && forall i :: 0 <= i < |es| ==> Shows(listed[i + 1], es[i])
  }

  lemma EntriesShown(es: seq<InventoryEntry>)
    ensures ShowsAll([ROOT_ENTRY] + TarEntries(es), es)
  {
    hide ModeFor, IsMode;
    forall i | 0 <= i < |es| ensures Shows(TarEntryFor(es[i]), es[i]) {
      ModeIs(es[i].relative, es[i].directory);
    }
  }

  /** The entries that the verifier lists for a packaged inventory, the root first. */
  lemma ListedEntries(es: seq<InventoryEntry>)
    requires Admissible(es) && |es| < ENTRY_LIMIT && PackageRelease(es).Ok?
    requires FirstPass(Stream(PackageRelease(es).value, false)).Ok?
    ensures ShowsAll(FirstPass(Stream(PackageRelease(es).value, false)).value, es)
  {
    hide PackageRelease, FirstPass, Acceptable, ShowsAll;
    PackagedAccepted(es);
    EntriesShown(es);
  }

  /** The files that the archive of a tree extracts to, with their modes as numbers. */
  lemma RestoredModes(es: seq<InventoryEntry>, i: nat)
    requires TreeShaped(es) && |es| < ENTRY_LIMIT && PackageRelease(es).Ok?
    requires Acceptable(es, |PackageRelease(es).value|) && i < |es| && !es[i].directory
    ensures var r := ExtractArchive(Stream(PackageRelease(es).value, false));
            && r.Ok? && MemberName(es[i]) in r.value
            && r.value[MemberName(es[i])].Regular? && r.value[MemberName(es[i])].content == es[i].content
            && IsMode(r.value[MemberName(es[i])].mode, es[i].relative, false)
  {
    hide PackageRelease, Acceptable, ExtractArchive, TreeShaped, ModeFor, Covers;
    PackagedExtracts(es);
    ModeIs(es[i].relative, false);
  }

  /** What the packaged archive of a tree extracts to, entry by entry. */
  lemma PackagedExtracts(es: seq<InventoryEntry>)
    requires TreeShaped(es) && |es| < ENTRY_LIMIT && PackageRelease(es).Ok?
    requires Acceptable(es, |PackageRelease(es).value|)
    ensures var r := ExtractArchive(Stream(PackageRelease(es).value, false));
            && r.Ok?
            && Covers(r.value, [ROOT_ENTRY] + TarEntries(es))
            && (forall i :: 0 <= i < |es| && !es[i].directory ==>
                  && MemberName(es[i]) in r.value
                  && r.value[MemberName(es[i])] == Regular(es[i].content, ModeFor(es[i].relative, false)))
            && (forall p :: FileIn(r.value, p) ==>
                  exists i :: 0 <= i < |es| && !es[i].directory && p == MemberName(es[i]))
  {
    hide MakeTarHeader, Acceptable, FirstPass, ExtractArchive, PackageMembers, HasContent, ContentAt, Covers,
         NoFileAbove,
      TreeShaped, Admissible, MemberName, ModeFor, Relative;
    var src := Stream(PackageRelease(es).value, false);
    var entries := [ROOT_ENTRY] + TarEntries(es);
    TreeAdmissible(es);
    PackagedAccepted(es);
    TreeHasNoFileAbove(es);
    ExtractionOutcome(src);
    var disk := ExtractArchive(src).value;
    var root := MakeTarHeader(ROOT_SLASH, true, 0, EXECUTABLE_MODE).value;
    PackageExtends(root, es);
    StartOffset(es);
    assert es[0..] == es;
    hide HeaderOffset;
    ContentsInPlace(src, root, es, 0);
    forall i | 0 <= i < |es| && !es[i].directory
      ensures MemberName(es[i]) in disk
              && disk[MemberName(es[i])] == Regular(es[i].content, ModeFor(es[i].relative, false))
    {
      EntryStored(src, disk, es, i);
    }
    hide AllStoredAt;
    OnlyEntries(disk, es);
  }

  lemma OnlyEntries(disk: Disk, es: seq<InventoryEntry>)
    requires OnlyFileMembers(disk, [ROOT_ENTRY] + TarEntries(es))
    ensures forall p :: FileIn(disk, p) ==> exists i :: 0 <= i < |es| && !es[i].directory && p == MemberName(es[i])
  {
    hide MemberName, ModeFor;
    var entries := [ROOT_ENTRY] + TarEntries(es);
    forall p | FileIn(disk, p) ensures exists i :: 0 <= i < |es| && !es[i].directory && p == MemberName(es[i]) {
      var j :| 0 <= j < |entries| && entries[j].name == p && !entries[j].directory;
      assert entries[j] == TarEntryFor(es[j - 1]);
    }
  }

  lemma EntryStored(src: Stream, disk: Disk, es: seq<InventoryEntry>, i: nat)
    requires i < |es| && !es[i].directory
    requires AllStoredAt(src, disk, [ROOT_ENTRY] + TarEntries(es))
    requires ContentInPlace(src, HeaderOffset(es, i), es[i])
    ensures MemberName(es[i]) in disk
            && disk[MemberName(es[i])] == Regular(es[i].content, ModeFor(es[i].relative, false))
  {
    hide ContentAt, HasContent, StoredSize, ModeFor;
    var entries := [ROOT_ENTRY] + TarEntries(es);
    assert entries[..i + 1] == [ROOT_ENTRY] + TarEntries(es[..i]);
    assert entries[i + 1] == TarEntryFor(es[i]);
    assert FileStoredAt(src, disk, StoredSize(entries[..i + 1]), entries[i + 1]);
    assert MemberName(es[i])[|ROOT_SLASH|..] == es[i].relative;
    assert Relative(MemberName(es[i])) == es[i].relative;
  }

  /** The extracted form of a node. */
  function Restored(path: bytes, node: Node): DiskNode
    requires node.File? || node.Directory?
  {
    match node
    case File(content) => Regular(content, ModeFor(path, false))
    case Directory(_, _) => Folder
  }

  lemma PathCovered(listing: Listing, es: seq<InventoryEntry>, disk: Disk, path: bytes)
    requires WellFormed(listing) && CollectInventory(listing) == Ok(es)
    requires Covers(disk, [ROOT_ENTRY] + TarEntries(es))
    ensures ROOT_SLASH + path in disk <==> Lookup(listing, Components(path)).Some?
  {
    hide CollectInventory, Lookup, WellFormed, Above, ModeFor;
    var entries, name := [ROOT_ENTRY] + TarEntries(es), ROOT_SLASH + path;
    InventoryIsTree(listing, path);
    var wanted := InventoryEntry(path, false, 0, []);
    if name in disk {
      assert |name| > |ROOT|;
      var j :| 0 <= j < |entries| && AtOrAbove(name, entries[j].name);
      RootHasNoParent(name);
      var e := es[j - 1];
      assert entries[j] == TarEntryFor(e);
      AboveUnderRoot(wanted, e);
      InventoryIsTree(listing, e.relative);
      if Above(path, e.relative) {
        AncestorIsDirectory(listing, path, e.relative);
      }
    }
    if Lookup(listing, Components(path)).Some? {
      var i :| 0 <= i < |es| && es[i] == EntryFor(path, Lookup(listing, Components(path)).value);
      assert entries[i + 1] == TarEntryFor(es[i]);
      assert AtOrAbove(name, entries[i + 1].name);
    }
  }

  /**
   Packaging a release tree and extracting the archive gives the tree back: what stands at each path is what path
   resolution finds there, with the bytes of every file and the mode its name calls for.
   */
  lemma ReleaseRestored(listing: Listing, path: bytes)
    requires WellFormed(listing) && CollectInventory(listing).Ok?
    requires PackageRelease(CollectInventory(listing).value).Ok?
    requires Acceptable(CollectInventory(listing).value, |PackageRelease(CollectInventory(listing).value).value|)
    ensures var r := ExtractArchive(Stream(PackageRelease(CollectInventory(listing).value).value, false));
            var found := Lookup(listing, Components(path));
            && r.Ok?
            && (ROOT_SLASH + path in r.value <==> found.Some?)
            && (found.Some? ==> (found.value.File? || found.value.Directory?)
                                && r.value[ROOT_SLASH + path] == Restored(path, found.value))
  {
    hide PackageRelease, Acceptable, ExtractArchive, Covers, Lookup, TreeShaped, ModeFor, WellFormed, SortEntries,
         CollectDirectory;
    var es := CollectInventory(listing).value;
    SortedInventoryLimit(listing);
    hide CollectInventory;
    InventoryTreeShaped(listing);
    PackagedExtracts(es);
    var disk := ExtractArchive(Stream(PackageRelease(es).value, false)).value;
    PathCovered(listing, es, disk, path);
    InventoryIsTree(listing, path);
    var found := Lookup(listing, Components(path));
    if found.Some? {
      var i :| 0 <= i < |es| && es[i] == EntryFor(path, found.value);
      if found.value.Directory? {
        NotAFile(es, disk, i);
      }
    }
  }

  lemma SortedInventoryLimit(listing: Listing)
    requires CollectInventory(listing).Ok?
    ensures |CollectInventory(listing).value| < ENTRY_LIMIT
  {
    hide SortEntries, CollectDirectory;
  }

  lemma NotAFile(es: seq<InventoryEntry>, disk: Disk, i: nat)
    requires TreeShaped(es) && i < |es| && es[i].directory
    requires forall p :: FileIn(disk, p) ==> exists j :: 0 <= j < |es| && !es[j].directory && p == MemberName(es[j])
    ensures !FileIn(disk, MemberName(es[i]))
  {
    hide Above, ReleaseEntry, MemberName;
    if FileIn(disk, MemberName(es[i])) {
      var j :| 0 <= j < |es| && !es[j].directory && MemberName(es[i]) == MemberName(es[j]);
      AboveUnderRoot(es[i], es[j]);
      EntriesDiffer(es, if i < j then i else j, if i < j then j else i);
    }
  }
}
