/**
 The packager's walk over a release directory, and the sorted inventory it packages.
 A listing is the result of reading one directory, in whatever order the file system gives.
 */
module ReleaseInventory {
  import opened Wrappers
  import opened Bytes
  import opened Paths
  import opened Ustar
  import Utf8

  const ENTRY_LIMIT := 20_000
  const EXPANDED_LIMIT := 1024 * 1024 * 1024

  datatype Node =
    | File(content: bytes)
    | Directory(entries: Listing, length: nat)
    | Symlink
    | Special

  datatype Listing = End | Entry(name: bytes, node: Node, rest: Listing)

  datatype InventoryEntry = InventoryEntry(relative: bytes, directory: bool, size: nat, content: bytes)

  datatype InventoryError =
    | SymlinkEntry
    | NonUtf8Entry
    | NonRegularEntry
    | UnexpectedEntry
    | EntryTooLarge
    | ReleaseTooLarge

  // ---------------------------------------------------------------------------------------------
  // What a file system guarantees
  // ---------------------------------------------------------------------------------------------

  function Names(listing: Listing): set<bytes> {
    match listing
    case End => {}
    case Entry(name, _, rest) => {name} + Names(rest)
  }

  /** Names within a directory are distinct, nonempty, not `.` or `..`, and free of slashes and NULs. */
  predicate WellFormed(listing: Listing) {
    match listing
    case End => true
    case Entry(name, node, rest) =>
      && PlainComponent(name) && SLASH !in name && NUL !in name && name !in Names(rest)
      && (node.Directory? ==> WellFormed(node.entries))
      && WellFormed(rest)
  }

  /** Path resolution. */
  function Lookup(listing: Listing, parts: seq<bytes>): Option<Node>
    requires |parts| >= 1
    decreases listing
  {
    match listing
    case End => None
    case Entry(name, node, rest) =>
      if name != parts[0] then Lookup(rest, parts)
      else if |parts| == 1 then Some(node)
      else if node.Directory? then Lookup(node.entries, parts[1..])
      else None
  }

  // ---------------------------------------------------------------------------------------------
  // The walk
  // ---------------------------------------------------------------------------------------------

  predicate AllowedReleasePath(relative: bytes, directory: bool) {
    if directory then relative == STATIC || STATIC_SLASH <= relative
    else
      || relative in RELEASE_BINARIES
      || relative == SOURCE_COMMIT
      || relative == MANIFEST
      || (STATIC_SLASH <= relative && relative != STATIC_SLASH)
  }

  function Extend(prefix: bytes, path: bytes): bytes {
    if prefix == [] then path else prefix + [SLASH] + path
  }

  function EntryFor(relative: bytes, node: Node): InventoryEntry
    requires node.File? || node.Directory?
  {
    match node
    case File(content) => InventoryEntry(relative, false, |content|, content)
    case Directory(_, length) => InventoryEntry(relative, true, length, [])
  }

  /** The checks `collect_directory` makes on one directory entry. */
  function InspectEntry(relative: bytes, node: Node): (r: Result<InventoryEntry, InventoryError>)
    ensures r.Ok? ==> (node.File? || node.Directory?) && r.value == EntryFor(relative, node)
  {
    if node.Symlink? then Err(SymlinkEntry)
    else if !Utf8.Valid(relative) then Err(NonUtf8Entry)
    else if node.Special? then Err(NonRegularEntry)
    else if !AllowedReleasePath(relative, node.Directory?) then Err(UnexpectedEntry)
    else if EntryFor(relative, node).size > FILE_LIMIT then Err(EntryTooLarge)
    else Ok(EntryFor(relative, node))
  }

  function CollectDirectory(prefix: bytes, listing: Listing): (r: Result<seq<InventoryEntry>, InventoryError>)
    decreases listing
  {
    match listing
    case End => Ok([])
    case Entry(name, node, rest) =>
      var relative := Extend(prefix, name);
      var here :- InspectEntry(relative, node);
      var below :- if node.Directory? then CollectDirectory(relative, node.entries) else Ok([]);
      var others :- CollectDirectory(prefix, rest);
      Ok([here] + below + others)
  }

  function InsertEntry(e: InventoryEntry, es: seq<InventoryEntry>): seq<InventoryEntry> {
    if es == [] || !Less(es[0].relative, e.relative) then [e] + es else [es[0]] + InsertEntry(e, es[1..])
  }

  function SortEntries(es: seq<InventoryEntry>): seq<InventoryEntry> {
    if es == [] then [] else InsertEntry(es[0], SortEntries(es[1..]))
  }

  function FileBytes(es: seq<InventoryEntry>): nat {
    if es == [] then 0 else (if es[0].directory then 0 else es[0].size) + FileBytes(es[1..])
  }

  function CollectInventory(listing: Listing): (r: Result<seq<InventoryEntry>, InventoryError>) {
    var found :- CollectDirectory([], listing);
    var entries := SortEntries(found);
    if |entries| + 1 > ENTRY_LIMIT || FileBytes(entries) > EXPANDED_LIMIT then Err(ReleaseTooLarge)
    else Ok(entries)
  }

  // ---------------------------------------------------------------------------------------------
  // The walk finds exactly what path resolution finds
  // ---------------------------------------------------------------------------------------------

  lemma {:induction false} LookupNames(listing: Listing, parts: seq<bytes>)
    requires |parts| >= 1
    requires Lookup(listing, parts).Some?
    ensures parts[0] in Names(listing)
  {
    if listing.name != parts[0] {
      LookupNames(listing.rest, parts);
    }
  }

  lemma {:induction false} LookupPlain(listing: Listing, parts: seq<bytes>)
    requires |parts| >= 1
    requires WellFormed(listing) && Lookup(listing, parts).Some?
    ensures AllPlain(parts) && Slashless(parts)
    ensures forall i :: 0 <= i < |parts| ==> NUL !in parts[i]
    decreases listing
  {
    if listing.name != parts[0] {
      LookupPlain(listing.rest, parts);
    } else if |parts| > 1 {
      LookupPlain(listing.node.entries, parts[1..]);
      assert parts == [parts[0]] + parts[1..];
    }
  }

  /** Whatever lies on the way to a path is a directory. */
  lemma {:induction false} LookupThrough(listing: Listing, a: seq<bytes>, b: seq<bytes>)
    requires |a| >= 1 && |b| >= 1
    requires Lookup(listing, a + b).Some?
    ensures Lookup(listing, a).Some? && Lookup(listing, a).value.Directory?
    decreases listing
  {
    if listing.name != a[0] {
      LookupThrough(listing.rest, a, b);
    } else if |a| > 1 {
      assert (a + b)[1..] == a[1..] + b;
      LookupThrough(listing.node.entries, a[1..], b);
    }
  }

  lemma ExtendTwice(prefix: bytes, name: bytes, path: bytes)
    requires name != []
    ensures Extend(Extend(prefix, name), path) == Extend(prefix, name + [SLASH] + path)
  {
    assert prefix + [SLASH] + name + [SLASH] + path == prefix + [SLASH] + (name + [SLASH] + path);
  }

  lemma ExtendJoin(prefix: bytes, name: bytes, parts: seq<bytes>)
    requires |parts| >= 1
    requires name != []
    ensures Extend(Extend(prefix, name), Join(parts)) == Extend(prefix, Join([name] + parts))
  {
    var all := [name] + parts;
    assert all[0] == name && all[1..] == parts;
    assert Join(all) == name + [SLASH] + Join(parts);
    ExtendTwice(prefix, name, Join(parts));
  }

  /** Every entry found is what path resolution finds at its path. */
  lemma {:induction false} CollectSound(prefix: bytes, listing: Listing, e: InventoryEntry) returns (parts: seq<bytes>)
    requires WellFormed(listing)
    requires CollectDirectory(prefix, listing).Ok? && e in CollectDirectory(prefix, listing).value
    ensures |parts| >= 1 && e.relative == Extend(prefix, Join(parts))
    ensures Lookup(listing, parts).Some? && InspectEntry(e.relative, Lookup(listing, parts).value) == Ok(e)
    decreases listing
  {
    var relative := Extend(prefix, listing.name);
    var below := if listing.node.Directory? then CollectDirectory(relative, listing.node.entries).value else [];
    if e == InspectEntry(relative, listing.node).value {
      parts := [listing.name];
    } else if e in below {
      var inner := CollectSound(relative, listing.node.entries, e);
      ExtendJoin(prefix, listing.name, inner);
      parts := [listing.name] + inner;
      assert parts[1..] == inner;
    } else {
      parts := CollectSound(prefix, listing.rest, e);
      LookupNames(listing.rest, parts);
    }
  }

  /** Everything path resolution can reach is found. */
  lemma {:induction false} CollectComplete(prefix: bytes, listing: Listing, parts: seq<bytes>)
    requires WellFormed(listing) && |parts| >= 1
    requires CollectDirectory(prefix, listing).Ok? && Lookup(listing, parts).Some?
    ensures var node := Lookup(listing, parts).value;
            && (node.File? || node.Directory?)
            && EntryFor(Extend(prefix, Join(parts)), node) in CollectDirectory(prefix, listing).value
    decreases listing
  {
    var relative := Extend(prefix, listing.name);
    if listing.name != parts[0] {
      CollectComplete(prefix, listing.rest, parts);
    } else if |parts| > 1 {
      CollectComplete(relative, listing.node.entries, parts[1..]);
      ExtendJoin(prefix, listing.name, parts[1..]);
      assert parts == [parts[0]] + parts[1..];
    }
  }

  predicate Distinct(es: seq<InventoryEntry>) {
    forall i, j :: 0 <= i < j < |es| ==> es[i].relative != es[j].relative
  }

  predicate NamesApart(es: seq<InventoryEntry>, fs: seq<InventoryEntry>) {
    forall e, f :: e in es && f in fs ==> e.relative != f.relative
  }

  lemma DistinctConcat(es: seq<InventoryEntry>, fs: seq<InventoryEntry>)
    requires Distinct(es) && Distinct(fs) && NamesApart(es, fs)
    ensures Distinct(es + fs)
  {
    var all := es + fs;
    forall i, j | 0 <= i < j < |all| ensures all[i].relative != all[j].relative {
      if i < |es| <= j {
        assert all[i] in es && all[j] in fs;
      }
    }
  }

  lemma ExtendInjective(prefix: bytes, a: bytes, b: bytes)
    requires Extend(prefix, a) == Extend(prefix, b)
    ensures a == b
  {
    if prefix != [] {
      assert Extend(prefix, a)[|prefix| + 1..] == a;
      assert Extend(prefix, b)[|prefix| + 1..] == b;
    }
  }

  /** Different paths give different strings. */
  lemma PathsApart(prefix: bytes, a: seq<bytes>, b: seq<bytes>)
    requires |a| >= 1 && |b| >= 1 && Slashless(a) && Slashless(b)
    requires a[0] != b[0]
    ensures Extend(prefix, Join(a)) != Extend(prefix, Join(b))
  {
    ComponentsJoin(a);
    ComponentsJoin(b);
    if Extend(prefix, Join(a)) == Extend(prefix, Join(b)) {
      ExtendInjective(prefix, Join(a), Join(b));
    }
  }

  lemma {:induction false} CollectDistinct(prefix: bytes, listing: Listing)
    requires WellFormed(listing)
    requires CollectDirectory(prefix, listing).Ok?
    ensures Distinct(CollectDirectory(prefix, listing).value)
    decreases listing
  {
    if listing.Entry? {
      var name, relative := listing.name, Extend(prefix, listing.name);
      var here := InspectEntry(relative, listing.node).value;
      var below := if listing.node.Directory? then CollectDirectory(relative, listing.node.entries).value else [];
      var others := CollectDirectory(prefix, listing.rest).value;
      if listing.node.Directory? {
        CollectDistinct(relative, listing.node.entries);
      }
      CollectDistinct(prefix, listing.rest);
      forall e | e in below ensures Above(relative, e.relative) {
        var parts := CollectSound(relative, listing.node.entries, e);
      }
      forall e, f | e in [here] + below && f in others ensures e.relative != f.relative {
        HeadApart(prefix, listing, e, f);
      }
      assert NamesApart([here], below);
      DistinctConcat([here], below);
      DistinctConcat([here] + below, others);
    }
  }

  lemma HeadApart(prefix: bytes, listing: Listing, e: InventoryEntry, f: InventoryEntry)
    requires listing.Entry? && WellFormed(listing) && CollectDirectory(prefix, listing).Ok?
    requires f in CollectDirectory(prefix, listing.rest).value
    requires var relative := Extend(prefix, listing.name);
             || e == InspectEntry(relative, listing.node).value
             || (listing.node.Directory? && e in CollectDirectory(relative, listing.node.entries).value)
    ensures e.relative != f.relative
  {
    var name := listing.name;
    var relative := Extend(prefix, name);
    var b := CollectSound(prefix, listing.rest, f);
    LookupNames(listing.rest, b);
    LookupPlain(listing.rest, b);
    var a := [name];
    if e != InspectEntry(relative, listing.node).value {
      var inner := CollectSound(relative, listing.node.entries, e);
      LookupPlain(listing.node.entries, inner);
      ExtendJoin(prefix, name, inner);
      a := [name] + inner;
    }
    PathsApart(prefix, a, b);
  }

  // ---------------------------------------------------------------------------------------------
  // Sorting
  // ---------------------------------------------------------------------------------------------

  predicate Ascending(es: seq<InventoryEntry>) {
    forall i, j :: 0 <= i < j < |es| ==> Less(es[i].relative, es[j].relative)
  }

  lemma {:induction false} InsertMembers(e: InventoryEntry, es: seq<InventoryEntry>)
    ensures multiset(InsertEntry(e, es)) == multiset{e} + multiset(es)
    ensures forall f :: f in InsertEntry(e, es) <==> f == e || f in es
  {
    hide Less;
    if es != [] {
      InsertMembers(e, es[1..]);
      assert es == [es[0]] + es[1..];
    }
  }

  lemma {:induction false} InsertKeeps(e: InventoryEntry, es: seq<InventoryEntry>)
    requires Ascending(es)
    requires forall f :: f in es ==> f.relative != e.relative
    ensures Ascending(InsertEntry(e, es))
    ensures multiset(InsertEntry(e, es)) == multiset{e} + multiset(es)
  {
    hide Less;
    InsertMembers(e, es);
    if es != [] {
      if Less(es[0].relative, e.relative) {
        InsertKeeps(e, es[1..]);
        InsertMembers(e, es[1..]);
        var tail := InsertEntry(e, es[1..]);
        forall j | 0 <= j < |tail| ensures Less(es[0].relative, tail[j].relative) {
          assert tail[j] in tail;
        }
      } else {
        LessTotal(es[0].relative, e.relative);
        forall j | 0 < j < |es| ensures Less(e.relative, es[j].relative) {
          LessTransitive(e.relative, es[0].relative, es[j].relative);
        }
      }
    }
  }

  lemma {:induction false} SortKeeps(es: seq<InventoryEntry>)
    requires Distinct(es)
    ensures Ascending(SortEntries(es))
    ensures multiset(SortEntries(es)) == multiset(es)
  {
    if es != [] {
      assert es == [es[0]] + es[1..];
      SortKeeps(es[1..]);
      forall f | f in SortEntries(es[1..]) ensures f.relative != es[0].relative {
        assert f in multiset(es[1..]);
      }
      InsertKeeps(es[0], SortEntries(es[1..]));
    }
  }

  // ---------------------------------------------------------------------------------------------
  // The inventory of a directory tree
  // ---------------------------------------------------------------------------------------------

  /** What is true of every inventory of a directory tree. */
  predicate TreeShaped(es: seq<InventoryEntry>) {
    && Ascending(es)
    && (forall e :: e in es ==> ReleaseEntry(e))
    && (forall e, f :: e in es && f in es && Above(e.relative, f.relative) ==> e.directory)
  }

  predicate ReleaseEntry(e: InventoryEntry) {
    && Utf8.Valid(e.relative)
    && NUL !in e.relative
    && AllPlain(Components(e.relative))
    && AllowedReleasePath(e.relative, e.directory)
    && e.size <= FILE_LIMIT
    && (!e.directory ==> e.size == |e.content|)
  }

  predicate ListedDirectory(es: seq<InventoryEntry>, path: bytes) {
    exists f :: f in es && f.relative == path && f.directory
  }

  /** Membership in the inventory is path resolution in the tree. */
  lemma InventoryIsTree(listing: Listing, path: bytes)
    requires WellFormed(listing) && CollectInventory(listing).Ok?
    ensures var found := Lookup(listing, Components(path));
            var es := CollectInventory(listing).value;
            && (found.Some? ==> (found.value.File? || found.value.Directory?) && EntryFor(path, found.value) in es)
            && (forall e :: e in es && e.relative == path ==> found.Some? && e == EntryFor(path, found.value))
  {
    var found := CollectDirectory([], listing).value;
    CollectDistinct([], listing);
    SortKeeps(found);
    var es := CollectInventory(listing).value;
    assert forall e :: e in es <==> e in multiset(found);
    JoinComponents(path);
    if Lookup(listing, Components(path)).Some? {
      CollectComplete([], listing, Components(path));
    }
    forall e | e in es && e.relative == path
      ensures Lookup(listing, Components(path)).Some? && e == EntryFor(path, Lookup(listing, Components(path)).value)
    {
      assert e in multiset(found);
      var parts := CollectSound([], listing, e);
      LookupPlain(listing, parts);
      ComponentsJoin(parts);
    }
  }

  lemma {:induction false} JoinWithoutNul(parts: seq<bytes>)
    requires |parts| >= 1
    requires forall i :: 0 <= i < |parts| ==> NUL !in parts[i]
    ensures NUL !in Join(parts)
  {
    if |parts| > 1 {
      JoinWithoutNul(parts[1..]);
    }
  }

  /** Entries of a sorted inventory are distinct, allowed and well named, and no file stands above another entry. */
  lemma InventoryTreeShaped(listing: Listing)
    requires WellFormed(listing) && CollectInventory(listing).Ok?
    ensures TreeShaped(CollectInventory(listing).value)
  {
    var es := CollectInventory(listing).value;
    CollectDistinct([], listing);
    SortKeeps(CollectDirectory([], listing).value);
    forall e | e in es ensures ReleaseEntry(e) {
      EntryWellNamed(listing, e);
    }
    forall e, f | e in es && f in es && Above(e.relative, f.relative) ensures e.directory {
      InventoryIsTree(listing, e.relative);
      InventoryIsTree(listing, f.relative);
      AncestorIsDirectory(listing, e.relative, f.relative);
    }
  }

  lemma AncestorIsDirectory(listing: Listing, outer: bytes, inner: bytes)
    requires Above(outer, inner)
    requires Lookup(listing, Components(inner)).Some?
    ensures var found := Lookup(listing, Components(outer)); found.Some? && found.value.Directory?
  {
    var rest := inner[|outer| + 1..];
    assert inner == outer + [SLASH] + rest;
    ComponentsConcat(outer, rest);
    LookupThrough(listing, Components(outer), Components(rest));
  }

  lemma EntryWellNamed(listing: Listing, e: InventoryEntry)
    requires WellFormed(listing) && CollectInventory(listing).Ok?
    requires e in CollectInventory(listing).value
    ensures ReleaseEntry(e)
  {
    hide CollectDirectory, SortEntries, Lookup, AllowedReleasePath;
    var found := CollectDirectory([], listing).value;
    CollectDistinct([], listing);
    SortKeeps(found);
    assert e in multiset(found);
    var parts := CollectSound([], listing, e);
    LookupPlain(listing, parts);
    ComponentsJoin(parts);
    JoinWithoutNul(parts);
  }

  /** The inventory lists every directory before everything beneath it, and lists every parent directory. */
  lemma DirectoriesFirst(listing: Listing, i: nat, j: nat)
    requires WellFormed(listing) && CollectInventory(listing).Ok?
    requires i < |CollectInventory(listing).value| && j < |CollectInventory(listing).value|
    ensures var es := CollectInventory(listing).value;
            && (Above(es[i].relative, es[j].relative) ==> i < j && es[i].directory)
            && (Parent(es[j].relative).Some? ==> ListedDirectory(es[..j], Parent(es[j].relative).value))
  {
    var es := CollectInventory(listing).value;
    InventoryTreeShaped(listing);
    if Above(es[i].relative, es[j].relative) {
      AncestorEarlier(es, i, j);
    }
    if Parent(es[j].relative).Some? {
      ParentListed(listing, es, j);
    }
  }

  lemma ParentListed(listing: Listing, es: seq<InventoryEntry>, j: nat)
    requires WellFormed(listing) && CollectInventory(listing) == Ok(es) && Ascending(es)
    requires j < |es| && Parent(es[j].relative).Some?
    ensures ListedDirectory(es[..j], Parent(es[j].relative).value)
  {
    var parent := Parent(es[j].relative).value;
    InventoryIsTree(listing, es[j].relative);
    AncestorIsDirectory(listing, parent, es[j].relative);
    InventoryIsTree(listing, parent);
    var f := EntryFor(parent, Lookup(listing, Components(parent)).value);
    var k :| 0 <= k < |es| && es[k] == f;
    AncestorEarlier(es, k, j);
    assert es[..j][k] == f;
  }

  lemma AncestorEarlier(es: seq<InventoryEntry>, i: nat, j: nat)
    requires Ascending(es) && i < |es| && j < |es|
    requires Above(es[i].relative, es[j].relative)
    ensures i < j
  {
    PrefixLess(es[i].relative, es[j].relative);
    LessIrreflexive(es[i].relative);
    if j < i {
      LessTransitive(es[i].relative, es[j].relative, es[i].relative);
    }
  }
}
