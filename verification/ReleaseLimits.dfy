/**
 Where the packager and the two reading passes disagree: when packaging succeeds, and concrete inputs for each gap.
 */
module ReleaseLimits {
  import opened Wrappers
  import opened Bytes
  import opened Paths
  import opened Ustar
  import opened UstarRoundTrip
  import opened ReleaseInventory
  import opened ReleaseArchive
  import opened ByteReaders
  import opened ReleaseTwoPass
  import opened ReleaseDisk
  import opened ReleaseRoundTrip
  import opened TarBlocks
  import Utf8

  // ---------------------------------------------------------------------------------------------
  // When packaging succeeds
  // ---------------------------------------------------------------------------------------------

  function StoredBytes(e: InventoryEntry): nat {
    TAR_BLOCK + if e.directory then 0 else e.size + Padding(e.size)
  }

  function PackedSize(es: seq<InventoryEntry>): nat {
    if es == [] then 0 else StoredBytes(es[0]) + PackedSize(es[1..])
  }

  predicate Splittable(name: bytes) {
    |name| <= NAME_FIELD || exists i :: 0 <= i < |name| && SplitsAt(name, i)
  }

  lemma HeaderSucceeds(e: InventoryEntry)
    requires ReleaseEntry(e)
    ensures HeaderOf(e).Ok? <==> Splittable(ArchiveName(e))
  {
    hide MakeTarHeader, PackagerName, ArchiveName, AllPlain, Utf8.Valid, AllowedReleasePath, SplitsAt, ModeFor;
    ArchiveNameIsPackagerName(e);
    ModesFit(e);
    MakeTarHeaderSucceeds(ArchiveName(e), e.directory, e.size, ModeFor(e.relative, e.directory));
  }

  /** Packaging succeeds exactly when every archive name splits and the members stay within the expansion limit. */
  lemma {:induction false} PackagingSucceeds(written: bytes, es: seq<InventoryEntry>)
    requires forall e :: e in es ==> ReleaseEntry(e)
    requires |written| <= EXPANDED_LIMIT
    ensures PackageMembers(written, es).Ok? <==>
            (forall e :: e in es ==> Splittable(ArchiveName(e))) && |written| + PackedSize(es) <= EXPANDED_LIMIT
    ensures PackageMembers(written, es).Ok? ==> |PackageMembers(written, es).value| == |written| + PackedSize(es)
    decreases |es|
  {
    hide WriteMember, Splittable, ArchiveName, ReleaseEntry, StoredBytes;
    if es != [] {
      var e := es[0];
      WriteSucceeds(written, e);
      assert forall other :: other in es <==> other == e || other in es[1..];
      if WriteMember(written, e).Ok? {
        PackagingSucceeds(WriteMember(written, e).value, es[1..]);
      }
    }
  }

  lemma WriteSucceeds(written: bytes, e: InventoryEntry)
    requires ReleaseEntry(e)
    ensures WriteMember(written, e).Ok? <==> Splittable(ArchiveName(e)) && |written| + StoredBytes(e) <= EXPANDED_LIMIT
    ensures WriteMember(written, e).Ok? ==> |WriteMember(written, e).value| == |written| + StoredBytes(e)
  {
    hide MakeTarHeader, Splittable, ArchiveName, ModeFor, AllPlain, Utf8.Valid, AllowedReleasePath;
    HeaderSucceeds(e);
  }

  function PackedLength(es: seq<InventoryEntry>): nat {
    var end := TAR_BLOCK + PackedSize(es) + 2 * TAR_BLOCK;
    end + RecordPadding(end)
  }

  predicate Packable(es: seq<InventoryEntry>) {
    (forall e :: e in es ==> Splittable(ArchiveName(e))) && TAR_BLOCK + PackedSize(es) <= EXPANDED_LIMIT
  }

  lemma ReleasePackable(es: seq<InventoryEntry>)
    requires forall e :: e in es ==> ReleaseEntry(e)
    ensures PackageRelease(es).Ok? <==> Packable(es)
    ensures PackageRelease(es).Ok? ==> |PackageRelease(es).value| == PackedLength(es)
  {
    hide MakeTarHeader, Splittable, ReleaseEntry, PackedSize, PackageMembers, CheckTarHeader;
    RootHeader();
    PackagingSucceeds(MakeTarHeader(ROOT_SLASH, true, 0, EXECUTABLE_MODE).value, es);
  }

  /**
   Packaging succeeds, and the verifier accepts the result, exactly under conditions that can be read off the inventory.
   */
  lemma PackagedAndAccepted(es: seq<InventoryEntry>)
    requires Admissible(es) && |es| < ENTRY_LIMIT
    ensures PackageRelease(es).Ok? <==> Packable(es)
    ensures PackageRelease(es).Ok? ==>
              && |PackageRelease(es).value| % TAR_RECORD == 0
              && (FirstPass(Stream(PackageRelease(es).value, false)).Ok? <==> Acceptable(es, PackedLength(es)))
  {
    hide PackageRelease, FirstPass, Acceptable, Packable, Compatible, ReleaseEntry, PackedLength;
    ReleasePackable(es);
    if PackageRelease(es).Ok? {
      PackagedLength(es);
      PackagedAccepted(es);
    }
  }

  // ---------------------------------------------------------------------------------------------
  // A directory name the packager splits at its trailing slash
  // ---------------------------------------------------------------------------------------------

  const LONG_DIRECTORY: InventoryEntry := InventoryEntry(STATIC_SLASH + Repeat(0x61, 90), true, 4096, [])

  /** A component of printable ASCII. */
  predicate Simple(part: bytes) {
    && part != [] && part[0] != 0x2E
    && forall i :: 0 <= i < |part| ==> 0x20 <= part[i] < 0x7F && part[i] != SLASH && part[i] != BACKSLASH
  }

  predicate AllSimple(parts: seq<bytes>) {
    forall i :: 0 <= i < |parts| ==> Simple(parts[i])
  }

  lemma {:induction false} SimpleJoin(parts: seq<bytes>)
    requires |parts| >= 1 && AllSimple(parts)
    ensures forall i :: 0 <= i < |Join(parts)| ==> 0x20 <= Join(parts)[i] < 0x7F && Join(parts)[i] != BACKSLASH
  {
    if |parts| > 1 {
      SimpleJoin(parts[1..]);
    }
  }

  /** Paths of simple components pass every test on names. */
  lemma SimplePath(parts: seq<bytes>)
    requires |parts| >= 1 && AllSimple(parts)
    ensures Utf8.Valid(Join(parts)) && NUL !in Join(parts) && CleanText(Join(parts))
    ensures Components(Join(parts)) == parts && AllPlain(parts)
  {
    SimpleJoin(parts);
    ComponentsJoin(parts);
    Utf8.ValidAscii(Join(parts));
  }

  lemma LongDirectoryAllowed()
    ensures ReleaseEntry(LONG_DIRECTORY) && CleanText(LONG_DIRECTORY.relative)
  {
    hide Utf8.Valid, CleanText, Components;
    var parts := [STATIC, Repeat(0x61, 90)];
    SimplePath(parts);
    assert parts[1..] == [parts[1]];
    assert Join(parts) == LONG_DIRECTORY.relative;
  }

  /** The packager writes a 106-byte directory name without complaint, and the verifier refuses its header. */
  lemma LongDirectoryRefused()
    ensures HeaderOf(LONG_DIRECTORY).Ok?
    ensures CheckTarHeader(HeaderOf(LONG_DIRECTORY).value, {}, map[]) == Err(InvalidUstarPath)
  {
    hide MakeTarHeader, CheckKind, ArchiveMemberName, CheckNumbers, ReleaseEntry, CleanText, ModeFor, SafeArchiveName,
         PackagerName;
    var e := LONG_DIRECTORY;
    LongDirectoryAllowed();
    var name := ArchiveName(e);
    assert |name| == 106 && name[105] == SLASH;
    assert SplitsAt(name, 105);
    HeaderSucceeds(e);
    ArchiveNameIsPackagerName(e);
    KindRoundTrip(name, true, e.size, ModeFor(e.relative, true));
    NameRoundTrip(name, true, e.size, ModeFor(e.relative, true));
  }

  // ---------------------------------------------------------------------------------------------
  // A name that is not clean text
  // ---------------------------------------------------------------------------------------------

  const BACKSLASHED: InventoryEntry := EmptyFile(ASSETS_SLASH + [0x61, BACKSLASH, 0x62])

  lemma BackslashAllowed()
    ensures ReleaseEntry(BACKSLASHED) && !CleanText(BACKSLASHED.relative)
  {
    hide Components, Join, Utf8.Valid, PlainComponent;
    var assets, name := Text("assets"), [0x61, BACKSLASH, 0x62];
    AssetsText();
    JoinThree(STATIC, assets, name);
    var path := BACKSLASHED.relative;
    assert path == STATIC + [SLASH] + assets + [SLASH] + name;
    BackslashParts();
    ComponentsJoin([STATIC, assets, name]);
    assert path[15] == BACKSLASH && STATIC_SLASH <= path;
    assert forall i :: 0 <= i < |path| ==> 0 < path[i] < 0x80;
    Utf8.ValidAscii(path);
  }

  lemma AssetsText()
    ensures |STATIC| == 6 && |Text("assets")| == 6
    ensures forall i :: 0 <= i < 6 ==> 0x61 <= STATIC[i] <= 0x7A && 0x61 <= Text("assets")[i] <= 0x7A
  {
  }

  lemma BackslashParts()
    ensures var parts := [STATIC, Text("assets"), [0x61, BACKSLASH, 0x62]]; AllPlain(parts) && Slashless(parts)
  {
    AssetsText();
  }

  /** The packager writes an asset named `a\b` without complaint, and the verifier refuses its header. */
  lemma BackslashRefused()
    ensures ReleaseEntry(BACKSLASHED) && HeaderOf(BACKSLASHED).Ok?
    ensures CheckTarHeader(HeaderOf(BACKSLASHED).value, {}, map[]) == Err(InvalidPath)
  {
    hide MakeTarHeader, CheckKind, ArchiveMemberName, CheckNumbers, ReleaseEntry, CleanText, ModeFor, SafeArchiveName,
         PackagerName;
    var e := BACKSLASHED;
    BackslashAllowed();
    AssetsText();
    var name := ArchiveName(e);
    RootFacts();
    assert |name| == 25;
    HeaderSucceeds(e);
    ArchiveNameIsPackagerName(e);
    KindRoundTrip(name, false, e.size, ModeFor(e.relative, false));
    NameRoundTrip(name, false, e.size, ModeFor(e.relative, false));
    EntryNameSafe(e);
  }

  // ---------------------------------------------------------------------------------------------
  // A file above a later member
  // ---------------------------------------------------------------------------------------------

  function EmptyFile(relative: bytes): InventoryEntry {
    InventoryEntry(relative, false, 0, [])
  }

  const OBSTACLE: bytes := STATIC_SLASH + [0x61]
  const BEYOND: bytes := OBSTACLE + [SLASH, 0x62, SLASH, 0x63]

  /** The required files, an asset, the file `static/a`, and the file `static/a/b/c` beyond it. */
  const OBSTRUCTED: seq<InventoryEntry> := [
    EmptyFile(RELEASE_BINARIES[0]),
    EmptyFile(RELEASE_BINARIES[1]),
    EmptyFile(RELEASE_BINARIES[2]),
    EmptyFile(RELEASE_BINARIES[3]),
    EmptyFile(SOURCE_COMMIT),
    EmptyFile(MANIFEST),
    EmptyFile(INDEX),
    EmptyFile(ASSETS_SLASH + [0x78]),
    EmptyFile(OBSTACLE),
    EmptyFile(BEYOND)
  ]

  /** The length of each name and its first two bytes, which with its slashes tell all the names apart. */
  lemma ObstructedNames()
    ensures |OBSTRUCTED[0].relative| == 14 && |OBSTRUCTED[1].relative| == 17 && |OBSTRUCTED[2].relative| == 10
    ensures |OBSTRUCTED[3].relative| == 24 && |OBSTRUCTED[4].relative| == |OBSTRUCTED[5].relative| == 13
    ensures |OBSTRUCTED[6].relative| == 17 && |OBSTRUCTED[7].relative| == 15
    ensures |OBSTRUCTED[8].relative| == 8 && |OBSTRUCTED[9].relative| == 12
    ensures forall k :: 0 <= k < 4 ==> OBSTRUCTED[k].relative[0] == 0x6C
    ensures OBSTRUCTED[4].relative[0] == 0x73 && OBSTRUCTED[4].relative[1] == 0x6F && OBSTRUCTED[5].relative[0] == 0x6D
    ensures forall k :: 6 <= k < 10 ==> OBSTRUCTED[k].relative[0] == 0x73 && OBSTRUCTED[k].relative[1] == 0x74
  {
    hide Text;
    TopNameBytes();
    StaticNameBytes();
  }

  lemma TopNameBytes()
    ensures |RELEASE_BINARIES[0]| == 14 && |RELEASE_BINARIES[1]| == 17 && |RELEASE_BINARIES[2]| == 10
    ensures |RELEASE_BINARIES[3]| == 24 && |SOURCE_COMMIT| == |MANIFEST| == 13
    ensures forall k :: 0 <= k < 4 ==> RELEASE_BINARIES[k][0] == 0x6C
    ensures SOURCE_COMMIT[0] == 0x73 && SOURCE_COMMIT[1] == 0x6F && MANIFEST[0] == 0x6D
  {
  }

  lemma StaticNameBytes()
    ensures |INDEX| == 17 && |ASSETS_SLASH| == 14 && |OBSTACLE| == 8 && |BEYOND| == 12
    ensures forall name :: name in [INDEX, ASSETS_SLASH, OBSTACLE, BEYOND] ==> name[..2] == [0x73, 0x74]
  {
  }

  lemma ObstructedSlashes()
    ensures forall k, i :: 0 <= k < 6 && 0 <= i < |OBSTRUCTED[k].relative| ==> OBSTRUCTED[k].relative[i] != SLASH
    ensures forall i :: 0 <= i < 17 && OBSTRUCTED[6].relative[i] == SLASH ==> i == 6
    ensures forall i :: 0 <= i < 15 && OBSTRUCTED[7].relative[i] == SLASH ==> i == 6 || i == 13
    ensures forall i :: 0 <= i < 8 && OBSTRUCTED[8].relative[i] == SLASH ==> i == 6
    ensures forall i :: 0 <= i < 12 && OBSTRUCTED[9].relative[i] == SLASH ==> i == 6 || i == 8 || i == 10
    ensures OBSTRUCTED[9].relative[10] == SLASH
  {
  }

  lemma AboveBytes(x: bytes, y: bytes)
    requires Above(x, y)
    ensures |x| < |y| && y[|x|] == SLASH && x == y[..|x|]
  {
    assert (x + [SLASH])[|x|] == y[|x|];
    assert x == (x + [SLASH])[..|x|];
  }

  lemma ObstructedCompatible(i: nat, j: nat)
    requires i < j < |OBSTRUCTED|
    ensures Compatible(OBSTRUCTED[i], OBSTRUCTED[j])
  {
    ObstructedNames();
    ObstructedSlashes();
    var d, e := OBSTRUCTED[i], OBSTRUCTED[j];
    hide Above;
    if Above(d.relative, e.relative) {
      AboveBytes(d.relative, e.relative);
      assert i == 8 && j == 9;
      assert MemberName(e)[18] == SLASH;
    }
    if Above(e.relative, d.relative) {
      AboveBytes(e.relative, d.relative);
    }
  }

  /** The components of each name. */
  function ObstructedParts(k: nat): (parts: seq<bytes>)
    requires k < |OBSTRUCTED|
    ensures |parts| >= 1
  {
    if k < 6 then [OBSTRUCTED[k].relative]
    else if k == 6 then [STATIC, Text("index.html")]
    else if k == 7 then [STATIC, Text("assets"), [0x78]]
    else if k == 8 then [STATIC, [0x61]]
    else [STATIC, [0x61], [0x62], [0x63]]
  }

  lemma JoinTwo(a: bytes, b: bytes)
    ensures Join([a, b]) == a + [SLASH] + b
  {
    assert [a, b][1..] == [b];
  }

  lemma JoinThree(a: bytes, b: bytes, c: bytes)
    ensures Join([a, b, c]) == a + [SLASH] + b + [SLASH] + c
  {
    assert [a, b, c][1..] == [b, c];
    JoinTwo(b, c);
    assert a + [SLASH] + (b + [SLASH] + c) == a + [SLASH] + b + [SLASH] + c;
  }

  lemma ObstructedJoined(k: nat)
    requires k < |OBSTRUCTED|
    ensures AllSimple(ObstructedParts(k)) && Join(ObstructedParts(k)) == OBSTRUCTED[k].relative
  {
    hide AllSimple, Join, ObstructedParts;
    if k < 6 {
      PlainObstructed(k);
    } else if k < 9 {
      StaticObstructed();
    } else {
      DeepestObstructed();
    }
  }

  lemma StaticObstructed()
    ensures forall k :: 6 <= k < 9 ==>
              AllSimple(ObstructedParts(k)) && Join(ObstructedParts(k)) == OBSTRUCTED[k].relative
  {
    JoinTwo(STATIC, Text("index.html"));
    JoinThree(STATIC, Text("assets"), [0x78]);
    JoinTwo(STATIC, [0x61]);
  }

  lemma DeepestObstructed()
    ensures AllSimple(ObstructedParts(9)) && Join(ObstructedParts(9)) == OBSTRUCTED[9].relative
  {
    var parts := ObstructedParts(9);
    assert parts[1..] == [[0x61], [0x62], [0x63]];
    JoinThree([0x61], [0x62], [0x63]);
  }

  lemma PlainObstructed(k: nat)
    requires k < 6
    ensures AllSimple(ObstructedParts(k)) && Join(ObstructedParts(k)) == OBSTRUCTED[k].relative
  {
    ObstructedNames();
    ObstructedSlashes();
    PrintableNames();
  }

  lemma PrintableNames()
    ensures forall k, i :: 0 <= k < 6 && 0 <= i < |OBSTRUCTED[k].relative| ==>
              0x2D <= OBSTRUCTED[k].relative[i] <= 0x7A && OBSTRUCTED[k].relative[i] != BACKSLASH
  {
    hide Text;
    forall k | 0 <= k < 4
      ensures forall i :: 0 <= i < |OBSTRUCTED[k].relative| ==>
                0x2D <= OBSTRUCTED[k].relative[i] <= 0x7A && OBSTRUCTED[k].relative[i] != BACKSLASH
    {
      PrintableBinary(k);
    }
    PrintableCommit();
  }

  lemma PrintableBinary(k: nat)
    requires k < 4
    ensures forall i :: 0 <= i < |RELEASE_BINARIES[k]| ==>
              0x2D <= RELEASE_BINARIES[k][i] <= 0x7A && RELEASE_BINARIES[k][i] != BACKSLASH
  {
  }

  lemma PrintableCommit()
    ensures forall i :: 0 <= i < |SOURCE_COMMIT| ==> 0x2D <= SOURCE_COMMIT[i] <= 0x7A && SOURCE_COMMIT[i] != BACKSLASH
    ensures forall i :: 0 <= i < |MANIFEST| ==> 0x2D <= MANIFEST[i] <= 0x7A && MANIFEST[i] != BACKSLASH
  {
  }

  lemma ObstructedEntry(k: nat)
    requires k < |OBSTRUCTED|
    ensures ReleaseEntry(OBSTRUCTED[k]) && Readable(OBSTRUCTED[k]) && Splittable(ArchiveName(OBSTRUCTED[k]))
  {
    hide AllSimple, CleanText, Components, AllPlain, Utf8.Valid, ObstructedParts;
    ObstructedJoined(k);
    SimplePath(ObstructedParts(k));
    ObstructedNames();
    ObstructedAllowed(k);
    hide AllowedReleasePath;
  }

  lemma ObstructedAllowed(k: nat)
    requires k < |OBSTRUCTED|
    ensures AllowedReleasePath(OBSTRUCTED[k].relative, false) && !OBSTRUCTED[k].directory && OBSTRUCTED[k].content == []
            && OBSTRUCTED[k].size == 0
  {
    if k >= 6 {
      assert STATIC_SLASH <= OBSTRUCTED[k].relative && |OBSTRUCTED[k].relative| > 7;
    } else if k < 4 {
      assert RELEASE_BINARIES[k] in RELEASE_BINARIES;
    }
  }

  lemma ObstructedPacked(k: nat)
    requires k <= |OBSTRUCTED|
    ensures PackedSize(OBSTRUCTED[k..]) == TAR_BLOCK * (|OBSTRUCTED| - k)
    decreases |OBSTRUCTED| - k
  {
    if k < |OBSTRUCTED| {
      ObstructedAllowed(k);
      ObstructedPacked(k + 1);
      assert OBSTRUCTED[k..][1..] == OBSTRUCTED[k + 1..];
    }
  }

  /**
   The verifying pass accepts this archive, because it compares `static/a/b/c` with its missing parent only;
   extraction then fails on the file `static/a`.
   */
  lemma AcceptedButNotExtractable()
    ensures PackageRelease(OBSTRUCTED).Ok?
    ensures var src := Stream(PackageRelease(OBSTRUCTED).value, false);
            FirstPass(src).Ok? && ExtractArchive(src) == Err(CannotCreate)
  {
    hide PackageRelease, FirstPass, ExtractArchive, ReleaseEntry, Readable, Splittable, ArchiveName, Compatible,
         PackedSize, MemberName, ModeFor;
    var es := OBSTRUCTED;
    assert |es| == 10;
    forall i | 0 <= i < |es| ensures ReleaseEntry(es[i]) && Readable(es[i]) && Splittable(ArchiveName(es[i])) {
      ObstructedEntry(i);
    }
    forall i, j | 0 <= i < j < |es| ensures Compatible(es[i], es[j]) {
      ObstructedCompatible(i, j);
    }
    ObstructedPacked(0);
    assert es[0..] == es;
    ObstructedRequired();
    PackagedAndAccepted(es);
    PackagedAccepted(es);
    var src := Stream(PackageRelease(es).value, false);
    var entries := [ROOT_ENTRY] + TarEntries(es);
    assert FileAbove(entries[9], entries[10]) by {
      AboveUnderRoot(es[8], es[9]);
      assert BEYOND == OBSTACLE + [SLASH] + [0x62, SLASH, 0x63];
    }
    hide FileAbove;
    ExtractionOutcome(src);
  }

  lemma ObstructedRequired()
    ensures ListsRequired(OBSTRUCTED)
  {
    forall r | r in REQUIRED_FILES ensures ListsFile(OBSTRUCTED, r) {
      var k :| 0 <= k < |REQUIRED_FILES| && REQUIRED_FILES[k] == r;
      assert OBSTRUCTED[k].relative == r && !OBSTRUCTED[k].directory;
    }
    assert ASSETS_SLASH <= OBSTRUCTED[7].relative;
  }
}
