/** Release trees with any few assets: one that meets every premise of the round trip, and the two at the limit. */
module ReleaseTrees {
  import opened Wrappers
  import opened Bytes
  import opened Paths
  import opened Ustar
  import opened ReleaseInventory
  import opened ReleaseArchive
  import opened ByteReaders
  import opened ReleaseRoundTrip
  import opened ReleaseLimits
  import opened Sequences
  import opened TarBlocks
  import Utf8

  const ASSETS_NAME: bytes := Text("assets")
  const INDEX_NAME: bytes := Text("index.html")
  const ASSETS: bytes := STATIC_SLASH + ASSETS_NAME
  const DIRECTORY_LENGTH := 4096
  const MAX_ASSETS := 20

  /** Assets with names of one letter. */
  function AssetListing(contents: seq<bytes>): Listing
    requires |contents| <= MAX_ASSETS
  {
    if contents == [] then End
    else
      var last := |contents| - 1;
      Entry([0x61 + last], File(contents[last]), AssetListing(contents[..last]))
  }

  function StaticListing(contents: seq<bytes>): Listing
    requires |contents| <= MAX_ASSETS
  {
    Entry(INDEX_NAME, File([]), Entry(ASSETS_NAME, Directory(AssetListing(contents), DIRECTORY_LENGTH), End))
  }

  function TopListing(names: seq<bytes>, rest: Listing): Listing {
    if names == [] then rest else Entry(names[0], File([]), TopListing(names[1..], rest))
  }

  const TOP_FILES: seq<bytes> := RELEASE_BINARIES + [SOURCE_COMMIT, MANIFEST]

  /** The required files, all empty, and the assets. */
  function Tree(contents: seq<bytes>): Listing
    requires |contents| <= MAX_ASSETS
  {
    TopListing(TOP_FILES, Entry(STATIC, Directory(StaticListing(contents), DIRECTORY_LENGTH), End))
  }

  function Folder(relative: bytes): InventoryEntry {
    InventoryEntry(relative, true, DIRECTORY_LENGTH, [])
  }

  function AssetEntries(contents: seq<bytes>): seq<InventoryEntry>
    requires |contents| <= MAX_ASSETS
  {
    if contents == [] then []
    else
      var last := |contents| - 1;
      var asset := InventoryEntry(ASSETS + [SLASH, 0x61 + last], false, |contents[last]|, contents[last]);
      [asset] + AssetEntries(contents[..last])
  }

  function TopEntries(names: seq<bytes>): seq<InventoryEntry> {
    if names == [] then [] else [EmptyFile(names[0])] + TopEntries(names[1..])
  }

  /** What the walk finds, before it is sorted. */
  function Found(contents: seq<bytes>): seq<InventoryEntry>
    requires |contents| <= MAX_ASSETS
  {
    TopEntries(TOP_FILES) + ([Folder(STATIC), EmptyFile(INDEX), Folder(ASSETS)] + AssetEntries(contents))
  }

  predicate Small(contents: seq<bytes>) {
    1 <= |contents| <= MAX_ASSETS && forall i :: 0 <= i < |contents| ==> |contents[i]| <= FILE_LIMIT
  }

  // ---------------------------------------------------------------------------------------------
  // Names
  // ---------------------------------------------------------------------------------------------

  /** An entry that every stage takes. */
  predicate Good(e: InventoryEntry) {
    ReleaseEntry(e) && Readable(e) && Splittable(ArchiveName(e))
  }

  lemma GoodEntry(e: InventoryEntry, parts: seq<bytes>)
    requires |parts| >= 1 && AllSimple(parts) && e.relative == Join(parts) && |e.relative| <= 90
    requires AllowedReleasePath(e.relative, e.directory) && e.size <= FILE_LIMIT
             && (!e.directory ==> e.size == |e.content|)
    ensures Good(e)
  {
    hide AllSimple, CleanText, Components, AllPlain, Utf8.Valid, AllowedReleasePath, Join;
    SimplePath(parts);
  }

  lemma TopNames()
    ensures |TOP_FILES| == 6 && forall k :: 0 <= k < 6 ==> OBSTRUCTED[k] == EmptyFile(TOP_FILES[k])
    ensures OBSTRUCTED[6] == EmptyFile(INDEX)
  {
  }

  lemma TopGood(k: nat)
    requires k < |TOP_FILES|
    ensures Good(EmptyFile(TOP_FILES[k]))
  {
    hide ReleaseEntry, Readable, Splittable;
    TopNames();
    ObstructedEntry(k);
  }

  lemma IndexGood()
    ensures Good(EmptyFile(INDEX))
  {
    hide ReleaseEntry, Readable, Splittable;
    TopNames();
    ObstructedEntry(6);
  }

  lemma StaticParts()
    ensures Simple(STATIC) && Simple(ASSETS_NAME) && |STATIC| == 6 && |ASSETS_NAME| == 6
  {
    assert forall i :: 0 <= i < 6 ==> 0x61 <= STATIC[i] <= 0x7A && 0x61 <= ASSETS_NAME[i] <= 0x7A;
  }

  lemma FoldersGood()
    ensures Good(Folder(STATIC)) && Good(Folder(ASSETS))
  {
    hide Good, Simple, Join;
    StaticParts();
    JoinOne(STATIC);
    GoodEntry(Folder(STATIC), [STATIC]);
    JoinTwo(STATIC, ASSETS_NAME);
    assert ASSETS == STATIC + [SLASH] + ASSETS_NAME;
    GoodEntry(Folder(ASSETS), [STATIC, ASSETS_NAME]);
  }

  lemma JoinOne(a: bytes)
    ensures Join([a]) == a
  {
  }

  lemma AssetGood(contents: seq<bytes>, i: nat)
    requires |contents| <= MAX_ASSETS && i < |contents| && |contents[i]| <= FILE_LIMIT
    ensures Good(InventoryEntry(ASSETS + [SLASH, 0x61 + i], false, |contents[i]|, contents[i]))
  {
    hide Good, Simple, Join;
    StaticParts();
    var letter := [0x61 + i];
    assert Simple(letter) by {
      OneLetter(0x61 + i);
    }
    JoinThree(STATIC, ASSETS_NAME, letter);
    var relative := ASSETS + [SLASH, 0x61 + i];
    assert relative == STATIC + [SLASH] + ASSETS_NAME + [SLASH] + letter;
    assert STATIC_SLASH <= relative;
    GoodEntry(InventoryEntry(relative, false, |contents[i]|, contents[i]), [STATIC, ASSETS_NAME, letter]);
  }

  lemma OneLetter(b: byte)
    requires 0x61 <= b <= 0x7A
    ensures Simple([b])
  {
  }

  // ---------------------------------------------------------------------------------------------
  // The walk
  // ---------------------------------------------------------------------------------------------

  lemma Inspected(e: InventoryEntry, node: Node)
    requires Good(e) && (node.File? || node.Directory?) && EntryFor(e.relative, node) == e
    ensures InspectEntry(e.relative, node) == Ok(e)
  {
    hide Readable, Splittable, AllPlain, AllowedReleasePath, Utf8.Valid;
  }

  lemma {:induction false} AssetsCollected(contents: seq<bytes>)
    requires |contents| <= MAX_ASSETS && forall i :: 0 <= i < |contents| ==> |contents[i]| <= FILE_LIMIT
    ensures CollectDirectory(ASSETS, AssetListing(contents)) == Ok(AssetEntries(contents))
  {
    hide Good, CollectDirectory;
    if contents == [] {
      NothingCollected(ASSETS);
    } else {
      var last := |contents| - 1;
      AssetsCollected(contents[..last]);
      AssetGood(contents, last);
      FileCollected(ASSETS, [0x61 + last], AssetEntries(contents)[0], AssetListing(contents[..last]));
    }
  }

  lemma NothingCollected(prefix: bytes)
    ensures CollectDirectory(prefix, End) == Ok([])
  {
  }

  lemma FileCollected(prefix: bytes, name: bytes, e: InventoryEntry, rest: Listing)
    requires Good(e) && !e.directory && e.size == |e.content| && e.relative == Extend(prefix, name)
    requires CollectDirectory(prefix, rest).Ok?
    ensures CollectDirectory(prefix, Entry(name, File(e.content), rest)) ==
            Ok([e] + CollectDirectory(prefix, rest).value)
  {
    hide Good, InspectEntry, Extend;
    Inspected(e, File(e.content));
    var others := CollectDirectory(prefix, rest).value;
    assert [e] + [] + others == [e] + others;
  }

  lemma LastFolderCollected(prefix: bytes, name: bytes, e: InventoryEntry, entries: Listing)
    requires Good(e) && e == Folder(Extend(prefix, name)) && CollectDirectory(e.relative, entries).Ok?
    ensures CollectDirectory(prefix, Entry(name, Directory(entries, DIRECTORY_LENGTH), End)) ==
            Ok([e] + CollectDirectory(e.relative, entries).value)
  {
    hide Good, InspectEntry, Extend;
    Inspected(e, Directory(entries, DIRECTORY_LENGTH));
    assert CollectDirectory(prefix, End) == Ok([]);
    var below := CollectDirectory(e.relative, entries).value;
    assert [e] + below + [] == [e] + below;
  }

  lemma StaticCollected(contents: seq<bytes>)
    requires Small(contents)
    ensures CollectDirectory(STATIC, StaticListing(contents)) ==
            Ok([EmptyFile(INDEX), Folder(ASSETS)] + AssetEntries(contents))
  {
    hide Good, CollectDirectory, AssetListing, AssetEntries;
    AssetsCollected(contents);
    IndexGood();
    FoldersGood();
    assert Extend(STATIC, INDEX_NAME) == INDEX && Extend(STATIC, ASSETS_NAME) == ASSETS;
    LastFolderCollected(STATIC, ASSETS_NAME, Folder(ASSETS), AssetListing(contents));
    var rest := Entry(ASSETS_NAME, Directory(AssetListing(contents), DIRECTORY_LENGTH), End);
    FileCollected(STATIC, INDEX_NAME, EmptyFile(INDEX), rest);
    assert [EmptyFile(INDEX)] + ([Folder(ASSETS)] + AssetEntries(contents))
        == [EmptyFile(INDEX), Folder(ASSETS)] + AssetEntries(contents);
  }

  lemma {:induction false} TopCollected(k: nat, rest: Listing)
    requires k <= |TOP_FILES| && CollectDirectory([], rest).Ok?
    ensures CollectDirectory([], TopListing(TOP_FILES[k..], rest)) ==
            Ok(TopEntries(TOP_FILES[k..]) + CollectDirectory([], rest).value)
    decreases |TOP_FILES| - k
  {
    hide Good, CollectDirectory;
    if k < |TOP_FILES| {
      TopCollected(k + 1, rest);
      TopGood(k);
      var names := TOP_FILES[k..];
      assert names[0] == TOP_FILES[k] && names[1..] == TOP_FILES[k + 1..];
      assert Extend([], names[0]) == names[0];
      FileCollected([], names[0], EmptyFile(names[0]), TopListing(names[1..], rest));
      Regroup([EmptyFile(names[0])], TopEntries(names[1..]), CollectDirectory([], rest).value);
    } else {
      assert TOP_FILES[k..] == [];
      assert [] + CollectDirectory([], rest).value == CollectDirectory([], rest).value;
    }
  }

  lemma TreeCollected(contents: seq<bytes>)
    requires Small(contents)
    ensures CollectDirectory([], Tree(contents)) == Ok(Found(contents))
  {
    hide Good, CollectDirectory, StaticListing, AssetEntries, TopEntries, TopListing;
    StaticCollected(contents);
    FoldersGood();
    var folder := Directory(StaticListing(contents), DIRECTORY_LENGTH);
    var rest := Entry(STATIC, folder, End);
    LastFolderCollected([], STATIC, Folder(STATIC), StaticListing(contents));
    var below := [EmptyFile(INDEX), Folder(ASSETS)] + AssetEntries(contents);
    assert [Folder(STATIC)] + below == [Folder(STATIC), EmptyFile(INDEX), Folder(ASSETS)] + AssetEntries(contents);
    TopCollected(0, rest);
    assert TOP_FILES[0..] == TOP_FILES;
  }

  // ---------------------------------------------------------------------------------------------
  // The tree is one that a file system can hold
  // ---------------------------------------------------------------------------------------------

  lemma SimpleIsPlain(part: bytes)
    requires Simple(part)
    ensures PlainComponent(part) && SLASH !in part && NUL !in part
  {
  }

  lemma {:induction false} AssetsWellFormed(contents: seq<bytes>)
    requires |contents| <= MAX_ASSETS
    ensures WellFormed(AssetListing(contents))
    ensures forall name :: name in Names(AssetListing(contents)) ==> |name| == 1 && name[0] < 0x61 + |contents|
  {
    hide PlainComponent;
    if contents != [] {
      var last := |contents| - 1;
      AssetsWellFormed(contents[..last]);
      OneLetter(0x61 + last);
      SimpleIsPlain([0x61 + last]);
    }
  }

  lemma StaticWellFormed(contents: seq<bytes>)
    requires |contents| <= MAX_ASSETS
    ensures WellFormed(StaticListing(contents))
  {
    hide PlainComponent, Simple;
    AssetsWellFormed(contents);
    StaticParts();
    SimpleIsPlain(ASSETS_NAME);
    IndexPlain();
    var inner := Entry(ASSETS_NAME, Directory(AssetListing(contents), DIRECTORY_LENGTH), End);
    hide AssetListing;
    OneWellFormed(ASSETS_NAME, Directory(AssetListing(contents), DIRECTORY_LENGTH));
    assert |INDEX_NAME| == 10 && |ASSETS_NAME| == 6;
  }

  lemma OneWellFormed(name: bytes, node: Node)
    requires PlainComponent(name) && SLASH !in name && NUL !in name && (node.Directory? ==> WellFormed(node.entries))
    ensures WellFormed(Entry(name, node, End)) && Names(Entry(name, node, End)) == {name}
  {
    assert WellFormed(End) && Names(End) == {};
  }

  lemma IndexPlain()
    ensures PlainComponent(INDEX_NAME) && SLASH !in INDEX_NAME && NUL !in INDEX_NAME
  {
    assert forall i :: 0 <= i < 10 ==> INDEX_NAME[i] >= 0x2E && INDEX_NAME[i] != SLASH;
  }

  lemma TopPlain(k: nat)
    requires k < |TOP_FILES|
    ensures PlainComponent(TOP_FILES[k]) && SLASH !in TOP_FILES[k] && NUL !in TOP_FILES[k]
    ensures TOP_FILES[k] !in TOP_FILES[k + 1..] && TOP_FILES[k] != STATIC
  {
    ObstructedNames();
    ObstructedSlashes();
    PrintableNames();
    TopNames();
    assert forall i :: 0 <= i < 6 ==> OBSTRUCTED[i].relative == TOP_FILES[i];
    assert |TOP_FILES[k]| >= 10 && |STATIC| == 6;
  }

  lemma {:induction false} TopWellFormed(k: nat, rest: Listing)
    requires k <= |TOP_FILES| && WellFormed(rest) && Names(rest) == {STATIC}
    ensures WellFormed(TopListing(TOP_FILES[k..], rest))
    ensures forall name :: name in Names(TopListing(TOP_FILES[k..], rest)) ==> name == STATIC || name in TOP_FILES[k..]
    decreases |TOP_FILES| - k
  {
    hide PlainComponent;
    if k < |TOP_FILES| {
      TopWellFormed(k + 1, rest);
      TopPlain(k);
      var names := TOP_FILES[k..];
      assert names[0] == TOP_FILES[k] && names[1..] == TOP_FILES[k + 1..];
    } else {
      assert TOP_FILES[k..] == [];
    }
  }

  lemma TreeWellFormed(contents: seq<bytes>)
    requires |contents| <= MAX_ASSETS
    ensures WellFormed(Tree(contents))
  {
    hide PlainComponent, StaticListing, TopListing, Simple;
    StaticWellFormed(contents);
    StaticParts();
    SimpleIsPlain(STATIC);
    var rest := Entry(STATIC, Directory(StaticListing(contents), DIRECTORY_LENGTH), End);
    OneWellFormed(STATIC, Directory(StaticListing(contents), DIRECTORY_LENGTH));
    TopWellFormed(0, rest);
    assert TOP_FILES[0..] == TOP_FILES;
  }

  // ---------------------------------------------------------------------------------------------
  // The inventory
  // ---------------------------------------------------------------------------------------------

  lemma {:induction false} InsertSizes(e: InventoryEntry, es: seq<InventoryEntry>)
    ensures var more := InsertEntry(e, es);
            && |more| == |es| + 1 && PackedSize(more) == StoredBytes(e) + PackedSize(es)
            && FileBytes(more) == (if e.directory then 0 else e.size) + FileBytes(es)
  {
    hide Less, StoredBytes;
    if es != [] && Less(es[0].relative, e.relative) {
      InsertSizes(e, es[1..]);
    }
  }

  /** Sorting changes neither the sizes nor the entries. */
  lemma {:induction false} SortSizes(es: seq<InventoryEntry>)
    ensures var sorted := SortEntries(es);
            && |sorted| == |es| && PackedSize(sorted) == PackedSize(es) && FileBytes(sorted) == FileBytes(es)
            && forall e :: e in sorted <==> e in es
  {
    hide StoredBytes;
    if es != [] {
      SortSizes(es[1..]);
      InsertSizes(es[0], SortEntries(es[1..]));
      InsertMembers(es[0], SortEntries(es[1..]));
    }
  }

  lemma {:induction false} JoinedSizes(a: seq<InventoryEntry>, b: seq<InventoryEntry>)
    ensures PackedSize(a + b) == PackedSize(a) + PackedSize(b) && FileBytes(a + b) == FileBytes(a) + FileBytes(b)
  {
    hide StoredBytes;
    if a == [] {
      assert a + b == b;
    } else {
      JoinedSizes(a[1..], b);
      assert (a + b)[1..] == a[1..] + b;
    }
  }

  function AssetBytes(contents: seq<bytes>): nat {
    if contents == [] then 0 else |contents[|contents| - 1]| + AssetBytes(contents[..|contents| - 1])
  }

  function AssetSize(contents: seq<bytes>): nat {
    if contents == [] then 0
    else
      var last := |contents| - 1;
      TAR_BLOCK + |contents[last]| + Padding(|contents[last]|) + AssetSize(contents[..last])
  }

  lemma {:induction false} AssetSizes(contents: seq<bytes>)
    requires |contents| <= MAX_ASSETS && forall i :: 0 <= i < |contents| ==> |contents[i]| <= FILE_LIMIT
    ensures PackedSize(AssetEntries(contents)) == AssetSize(contents)
    ensures FileBytes(AssetEntries(contents)) == AssetBytes(contents) && |AssetEntries(contents)| == |contents|
    ensures forall e :: e in AssetEntries(contents) ==> Good(e)
  {
    hide Good;
    if contents != [] {
      var last := |contents| - 1;
      AssetSizes(contents[..last]);
      AssetGood(contents, last);
    }
  }

  lemma {:induction false} TopSizes(k: nat)
    requires k <= |TOP_FILES|
    ensures var es := TopEntries(TOP_FILES[k..]);
            && PackedSize(es) == TAR_BLOCK * (|TOP_FILES| - k) && FileBytes(es) == 0 && |es| == |TOP_FILES| - k
            && (forall e :: e in es ==> Good(e)) && (forall i :: k <= i < |TOP_FILES| ==> EmptyFile(TOP_FILES[i]) in es)
    decreases |TOP_FILES| - k
  {
    hide Good, PackedSize, FileBytes;
    if k < |TOP_FILES| {
      TopSizes(k + 1);
      TopGood(k);
      TopEntriesStep(TOP_FILES[k..]);
      assert TOP_FILES[k..][1..] == TOP_FILES[k + 1..];
    } else {
      assert TOP_FILES[k..] == [];
      NothingPacked();
    }
  }

  lemma NothingPacked()
    ensures PackedSize([]) == 0 && FileBytes([]) == 0
  {
  }

  lemma TopEntriesStep(names: seq<bytes>)
    requires names != []
    ensures var es, rest := TopEntries(names), TopEntries(names[1..]);
            && es == [EmptyFile(names[0])] + rest
            && PackedSize(es) == TAR_BLOCK + PackedSize(rest) && FileBytes(es) == FileBytes(rest)
  {
    JoinedSizes([EmptyFile(names[0])], TopEntries(names[1..]));
  }

  lemma FoundSizes(contents: seq<bytes>)
    requires Small(contents)
    ensures var es := Found(contents);
            && PackedSize(es) == 9 * TAR_BLOCK + AssetSize(contents) && FileBytes(es) == AssetBytes(contents)
            && |es| == 9 + |contents| && (forall e :: e in es ==> Good(e))
  {
    hide Good, TopEntries, AssetEntries;
    TopNames();
    TopSizes(0);
    assert TOP_FILES[0..] == TOP_FILES;
    AssetSizes(contents);
    IndexGood();
    FoldersGood();
    var middle := [Folder(STATIC), EmptyFile(INDEX), Folder(ASSETS)];
    MiddleSizes();
    JoinedSizes(middle, AssetEntries(contents));
    JoinedSizes(TopEntries(TOP_FILES), middle + AssetEntries(contents));
  }

  lemma MiddleSizes()
    ensures var middle := [Folder(STATIC), EmptyFile(INDEX), Folder(ASSETS)];
            PackedSize(middle) == 3 * TAR_BLOCK && FileBytes(middle) == 0
  {
    var middle := [Folder(STATIC), EmptyFile(INDEX), Folder(ASSETS)];
    var last := [Folder(ASSETS)];
    assert last[1..] == [] && PackedSize(last) == TAR_BLOCK && FileBytes(last) == 0;
    assert middle[1..][1..] == last;
    assert StoredBytes(middle[0]) == TAR_BLOCK && StoredBytes(middle[1]) == TAR_BLOCK;
  }

  lemma FoundFiles(contents: seq<bytes>, r: bytes)
    requires Small(contents) && r in REQUIRED_FILES
    ensures EmptyFile(r) in Found(contents)
  {
    hide TopEntries, AssetEntries;
    TopNames();
    var k :| 0 <= k < |REQUIRED_FILES| && REQUIRED_FILES[k] == r;
    if k < |TOP_FILES| {
      assert TOP_FILES[k] == r;
      TopSizes(0);
      assert TOP_FILES[0..] == TOP_FILES;
      assert EmptyFile(r) in TopEntries(TOP_FILES);
    } else {
      assert EmptyFile(INDEX) in [Folder(STATIC), EmptyFile(INDEX), Folder(ASSETS)];
    }
  }

  lemma FoundRequired(contents: seq<bytes>, es: seq<InventoryEntry>)
    requires Small(contents) && forall e :: e in Found(contents) ==> e in es
    ensures ListsRequired(es)
  {
    hide Found, ListsFile;
    forall r | r in REQUIRED_FILES ensures ListsFile(es, r) {
      FoundFiles(contents, r);
      Listed(es, EmptyFile(r));
    }
    var asset := FirstAsset(contents);
    var i :| 0 <= i < |es| && es[i] == asset;
  }

  lemma FirstAsset(contents: seq<bytes>) returns (asset: InventoryEntry)
    requires Small(contents)
    ensures asset in Found(contents) && ASSETS_SLASH <= asset.relative
  {
    asset := AssetEntries(contents)[0];
    assert asset in AssetEntries(contents);
    assert ASSETS + [SLASH, asset.relative[|asset.relative| - 1]] ==
           ASSETS_SLASH + asset.relative[|asset.relative| - 1..];
  }

  lemma Listed(es: seq<InventoryEntry>, e: InventoryEntry)
    requires e in es && !e.directory
    ensures ListsFile(es, e.relative)
  {
    var i :| 0 <= i < |es| && es[i] == e;
  }

  /** Everything the packager and the verifier ask of the tree, but for the total size. */
  lemma TreeInventory(contents: seq<bytes>) returns (es: seq<InventoryEntry>)
    requires Small(contents) && AssetBytes(contents) <= EXPANDED_LIMIT
    ensures WellFormed(Tree(contents)) && CollectInventory(Tree(contents)) == Ok(es)
    ensures Admissible(es) && |es| < ENTRY_LIMIT && AllReadable(es) && ListsRequired(es)
    ensures forall e :: e in es ==> ReleaseEntry(e) && Splittable(ArchiveName(e))
    ensures TAR_BLOCK + PackedSize(es) == 10 * TAR_BLOCK + AssetSize(contents) && |es| == 9 + |contents|
  {
    hide Good, SortEntries, Found, TreeShaped, Admissible, ListsRequired, PackedSize, CollectDirectory, WellFormed,
         Tree;
    TreeWellFormed(contents);
    TreeCollected(contents);
    FoundSizes(contents);
    SortSizes(Found(contents));
    es := SortEntries(Found(contents));
    InventoryTreeShaped(Tree(contents));
    TreeAdmissible(es);
    FoundRequired(contents, es);
    AllGood(es);
  }

  lemma AllGood(es: seq<InventoryEntry>)
    requires forall e :: e in es ==> Good(e)
    ensures AllReadable(es) && forall e :: e in es ==> ReleaseEntry(e) && Splittable(ArchiveName(e))
  {
    hide ReleaseEntry, Readable, Splittable;
    forall i | 0 <= i < |es| ensures Readable(es[i]) {
      assert Good(es[i]);
    }
  }

  // ---------------------------------------------------------------------------------------------
  // One tree that is restored, and two archives at the limit
  // ---------------------------------------------------------------------------------------------

  /** A tree with one small asset meets every premise of `ReleaseRestored`, and so is restored. */
  lemma RestorableTree() returns (listing: Listing, es: seq<InventoryEntry>)
    ensures WellFormed(listing) && CollectInventory(listing) == Ok(es) && |es| == 10
    ensures PackageRelease(es).Ok? && Acceptable(es, |PackageRelease(es).value|)
    ensures ExtractArchive(Stream(PackageRelease(es).value, false)).Ok?
  {
    hide CollectInventory, PackageRelease, ExtractArchive, Tree, ReleaseEntry, Splittable, Admissible, ListsRequired,
      AllReadable, PackedSize;
    var contents: seq<bytes> := [[0x78]];
    listing := Tree(contents);
    assert contents[..0] == [];
    es := TreeInventory(contents);
    PackagedAndAccepted(es);
    ReleasePackable(es);
    ReleaseRestored(listing, STATIC);
  }

  /** Seven assets of the largest size. */
  function Full(n: nat): (contents: seq<bytes>)
    ensures |contents| == n && forall i :: 0 <= i < n ==> |contents[i]| == FILE_LIMIT
  {
    if n == 0 then [] else Full(n - 1) + [Repeat(0x78, FILE_LIMIT)]
  }

  lemma {:induction false} FullSizes(n: nat)
    ensures AssetSize(Full(n)) == n * (TAR_BLOCK + FILE_LIMIT) && AssetBytes(Full(n)) == n * FILE_LIMIT
  {
    hide AssetSize, AssetBytes;
    if n == 0 {
      NoAssets();
    } else {
      FullSizes(n - 1);
      OneMoreAsset(Full(n - 1), Repeat(0x78, FILE_LIMIT));
      assert Padding(FILE_LIMIT) == 0;
    }
  }

  lemma NoAssets()
    ensures AssetSize([]) == 0 && AssetBytes([]) == 0
  {
  }

  lemma OneMoreAsset(contents: seq<bytes>, content: bytes)
    ensures AssetSize(contents + [content]) == AssetSize(contents) + TAR_BLOCK + |content| + Padding(|content|)
    ensures AssetBytes(contents + [content]) == AssetBytes(contents) + |content|
  {
    assert (contents + [content])[..|contents|] == contents;
  }

  /** An eighth asset brings the members to within some blocks of the expansion limit. */
  lemma NearLimit(blocks: nat) returns (listing: Listing, es: seq<InventoryEntry>)
    requires 18 <= blocks <= 20
    ensures WellFormed(listing) && CollectInventory(listing) == Ok(es)
    ensures Admissible(es) && |es| < ENTRY_LIMIT && AllReadable(es) && ListsRequired(es)
    ensures forall e :: e in es ==> ReleaseEntry(e) && Splittable(ArchiveName(e))
    ensures TAR_BLOCK + PackedSize(es) == EXPANDED_LIMIT + (18 - blocks) * TAR_BLOCK
  {
    hide Admissible, AllReadable, ListsRequired, ReleaseEntry, Splittable;
    var size := FILE_LIMIT - blocks * TAR_BLOCK;
    var contents := Full(7) + [Repeat(0x78, size)];
    FullSizes(7);
    OneMoreAsset(Full(7), Repeat(0x78, size));
    assert Padding(size) == 0;
    hide Full, AssetSize, AssetBytes, Tree, WellFormed, CollectInventory;
    listing := Tree(contents);
    es := TreeInventory(contents);
  }

  /** A tree whose members fill the limit exactly is packaged, and its padded archive is refused. */
  lemma PaddedArchiveRefused() returns (listing: Listing, es: seq<InventoryEntry>)
    ensures WellFormed(listing) && CollectInventory(listing) == Ok(es)
    ensures Admissible(es) && |es| < ENTRY_LIMIT && AllReadable(es) && ListsRequired(es) && PackageRelease(es).Ok?
    ensures var data := PackageRelease(es).value;
            |data| > EXPANDED_LIMIT && FirstPass(Stream(data, false)).Err?
  {
    hide Admissible, ListsRequired, AllReadable, ReleaseEntry, Splittable, PackageRelease, FirstPass, PackedSize,
         WellFormed, CollectInventory;
    listing, es := NearLimit(18);
    PackagedAndAccepted(es);
    ReleasePackable(es);
  }

  /** An accepted stream can be one block longer than the limit. */
  lemma LongestAccepted() returns (src: Stream)
    ensures |src.data| == EXPANDED_LIMIT + TAR_BLOCK && FirstPass(src).Ok?
  {
    hide Admissible, ListsRequired, AllReadable, ReleaseEntry, Splittable, FirstPass, PackedSize, Members;
    var _, es := NearLimit(19);
    MembersSize(es);
    MembersAccepted(es, 2 * TAR_BLOCK);
    src := Stream(Members(es).value + Repeat(NUL, 2 * TAR_BLOCK), false);
  }

  lemma MembersSize(es: seq<InventoryEntry>)
    requires Packable(es) && forall e :: e in es ==> ReleaseEntry(e)
    ensures Members(es).Ok? && |Members(es).value| == TAR_BLOCK + PackedSize(es)
  {
    hide MakeTarHeader, CheckTarHeader, ReleaseEntry, Splittable, PackageMembers, PackedSize;
    RootHeader();
    PackagingSucceeds(MakeTarHeader(ROOT_SLASH, true, 0, EXECUTABLE_MODE).value, es);
  }
}
