/** Which directory trees the packager collects, said of the trees alone. */
module ReleaseCollection {
  import opened Wrappers
  import opened Bytes
  import opened Paths
  import opened Ustar
  import opened ReleaseInventory
  import opened ReleaseHeaders
  import Utf8

  /** A file or directory, of a kind, name and size that a release may have. */
  predicate Packable(path: bytes, node: Node) {
    && (node.File? || node.Directory?) && Utf8.Valid(path) && OnList(BELOW_ROOT + path, node.Directory?)
    && (if node.File? then |node.content| else node.length) <= 0x800_0000
  }

  ghost predicate AllPackable(prefix: bytes, listing: Listing) {
    forall parts :: |parts| >= 1 && Lookup(listing, parts).Some? ==>
                      Packable(Extend(prefix, Join(parts)), Lookup(listing, parts).value)
  }

  /** How many files and directories a tree has. */
  function NodeCount(listing: Listing): nat {
    match listing
    case End => 0
    case Entry(_, node, rest) => 1 + (if node.Directory? then NodeCount(node.entries) else 0) + NodeCount(rest)
  }

  /** How many bytes its files hold. */
  function ContentSize(listing: Listing): nat {
    match listing
    case End => 0
    case Entry(_, node, rest) =>
      (match node
       case File(content) => |content|
       case Directory(entries, _) => ContentSize(entries)
       case _ => 0) + ContentSize(rest)
  }

  lemma AllowedIsListed(path: bytes, directory: bool)
    ensures AllowedReleasePath(path, directory) <==> OnList(BELOW_ROOT + path, directory)
  {
    var name := BELOW_ROOT + path;
    assert name[|BELOW_ROOT|..] == path;
    ListedBelow(path, Text("static/"));
    assert STATIC_SLASH == Text("static/");
    assert name != Text("release");
    if !directory {
      NamesBelow(path);
    } else {
      SameBelow(path, Text("static"));
    }
  }

  lemma SameBelow(path: bytes, other: bytes)
    ensures BELOW_ROOT + path == BELOW_ROOT + other <==> path == other
  {
    assert (BELOW_ROOT + path)[|BELOW_ROOT|..] == path && (BELOW_ROOT + other)[|BELOW_ROOT|..] == other;
  }

  lemma ListedBelow(path: bytes, front: bytes)
    ensures BELOW_ROOT + front <= BELOW_ROOT + path <==> front <= path
  {
    if BELOW_ROOT + front <= BELOW_ROOT + path {
      assert (BELOW_ROOT + path)[..|BELOW_ROOT + front|] == BELOW_ROOT + front;
      assert path[..|front|] == (BELOW_ROOT + path)[|BELOW_ROOT|..|BELOW_ROOT| + |front|];
    }
  }

  lemma NamesBelow(path: bytes)
    ensures path in RELEASE_BINARIES <==> IsBinary(BELOW_ROOT + path)
    ensures path == SOURCE_COMMIT <==> BELOW_ROOT + path == COMMIT_FILE
    ensures path == MANIFEST <==> BELOW_ROOT + path == MANIFEST_FILE
    ensures path == STATIC_SLASH <==> BELOW_ROOT + path == BELOW_STATIC
  {
    SameBelow(path, Text("lumistripe-web"));
    SameBelow(path, Text("lumistripe-engine"));
    SameBelow(path, Text("lumistripe"));
    SameBelow(path, Text("lumistripe-deploy-helper"));
    SameBelow(path, Text("source-commit"));
    SameBelow(path, Text("manifest.json"));
    SameBelow(path, Text("static/"));
    assert STATIC_SLASH == Text("static/");
  }

  lemma InspectIff(path: bytes, node: Node)
    ensures InspectEntry(path, node).Ok? <==> Packable(path, node)
  {
    hide AllowedReleasePath, OnList, Utf8.Valid;
    AllowedIsListed(path, node.Directory?);
  }

  lemma PackableParts(prefix: bytes, listing: Listing)
    requires WellFormed(listing) && listing.Entry?
    ensures var relative := Extend(prefix, listing.name);
            AllPackable(prefix, listing) <==>
            && Packable(relative, listing.node)
            && (listing.node.Directory? ==> AllPackable(relative, listing.node.entries))
            && AllPackable(prefix, listing.rest)
  {
    hide Packable;
    var name, node, rest := listing.name, listing.node, listing.rest;
    var relative := Extend(prefix, name);
    forall parts | |parts| >= 1 && Lookup(rest, parts).Some? ensures Lookup(listing, parts) == Lookup(rest, parts) {
      LookupNames(rest, parts);
    }
    assert Lookup(listing, [name]) == Some(node) && Join([name]) == name;
    if node.Directory? {
      forall inner | |inner| >= 1 && Lookup(node.entries, inner).Some?
        ensures Lookup(listing, [name] + inner) == Lookup(node.entries, inner)
        ensures Extend(relative, Join(inner)) == Extend(prefix, Join([name] + inner))
      {
        assert ([name] + inner)[1..] == inner;
        ExtendJoin(prefix, name, inner);
      }
    }
    if AllPackable(prefix, rest) && Packable(relative, node)
       && (node.Directory? ==> AllPackable(relative, node.entries)) {
      forall parts | |parts| >= 1 && Lookup(listing, parts).Some?
        ensures Packable(Extend(prefix, Join(parts)), Lookup(listing, parts).value)
      {
        if parts[0] == name {
          assert parts == [name] + parts[1..];
        }
      }
    }
  }

  lemma {:induction false} WalkSucceeds(prefix: bytes, listing: Listing)
    requires WellFormed(listing)
    ensures CollectDirectory(prefix, listing).Ok? <==> AllPackable(prefix, listing)
    decreases listing
  {
    hide AllPackable, Packable, InspectEntry;
    if listing.Entry? {
      var relative := Extend(prefix, listing.name);
      InspectIff(relative, listing.node);
      PackableParts(prefix, listing);
      if listing.node.Directory? {
        WalkSucceeds(relative, listing.node.entries);
      }
      WalkSucceeds(prefix, listing.rest);
    } else {
      EndPackable(prefix);
    }
  }

  lemma EndPackable(prefix: bytes)
    ensures AllPackable(prefix, End)
  {
  }

  lemma {:induction false} FileBytesConcat(es: seq<InventoryEntry>, fs: seq<InventoryEntry>)
    ensures FileBytes(es + fs) == FileBytes(es) + FileBytes(fs)
  {
    if es == [] {
      assert es + fs == fs;
    } else {
      assert (es + fs)[1..] == es[1..] + fs;
      FileBytesConcat(es[1..], fs);
    }
  }

  lemma {:induction false} WalkCounts(prefix: bytes, listing: Listing)
    requires CollectDirectory(prefix, listing).Ok?
    ensures var es := CollectDirectory(prefix, listing).value;
            |es| == NodeCount(listing) && FileBytes(es) == ContentSize(listing)
    decreases listing
  {
    hide InspectEntry;
    if listing.Entry? {
      var relative := Extend(prefix, listing.name);
      var here := InspectEntry(relative, listing.node).value;
      var below := if listing.node.Directory? then CollectDirectory(relative, listing.node.entries).value else [];
      if listing.node.Directory? {
        WalkCounts(relative, listing.node.entries);
      }
      WalkCounts(prefix, listing.rest);
      FileBytesConcat([here], below);
      FileBytesConcat([here] + below, CollectDirectory(prefix, listing.rest).value);
    }
  }

  lemma {:induction false} InsertCounts(e: InventoryEntry, es: seq<InventoryEntry>)
    ensures |InsertEntry(e, es)| == |es| + 1
    ensures FileBytes(InsertEntry(e, es)) == FileBytes([e]) + FileBytes(es)
  {
    if es != [] && Less(es[0].relative, e.relative) {
      InsertCounts(e, es[1..]);
    }
  }

  lemma {:induction false} SortCounts(es: seq<InventoryEntry>)
    ensures |SortEntries(es)| == |es| && FileBytes(SortEntries(es)) == FileBytes(es)
  {
    if es != [] {
      SortCounts(es[1..]);
      InsertCounts(es[0], SortEntries(es[1..]));
    }
  }

  /**
   A tree is collected exactly when everything in it may stand in a release, it has fewer than twenty thousand entries
   and its files hold at most a gibibyte.
   */
  lemma CollectedIff(listing: Listing)
    requires WellFormed(listing)
    ensures CollectInventory(listing).Ok? <==>
              AllPackable([], listing) && NodeCount(listing) < 20_000 && ContentSize(listing) <= 0x4000_0000
  {
    hide AllPackable, CollectDirectory, SortEntries, FileBytes;
    WalkSucceeds([], listing);
    if CollectDirectory([], listing).Ok? {
      WalkCounts([], listing);
      SortCounts(CollectDirectory([], listing).value);
    }
  }
}
