/**
 Release archives as byte streams: what the packager writes, what the verifying pass accepts, and what the
 extracting pass puts on disk.
 */
module ReleaseArchive {
  import opened Wrappers
  import opened Bytes
  import opened Numerals
  import opened Paths
  import opened Ustar
  import opened ReleaseInventory
  import opened ByteReaders
  import opened TarBlocks

  const TAR_RECORD := 10 * 1024

  const EXECUTABLE_MODE := 0x1ED // 0o755
  const PLAIN_MODE := 0x1A4 // 0o644

  const INDEX: bytes := STATIC_SLASH + Text("index.html")
  const ASSETS_SLASH: bytes := STATIC_SLASH + Text("assets") + [SLASH]
  const REQUIRED_FILES: seq<bytes> := RELEASE_BINARIES + [SOURCE_COMMIT, MANIFEST, INDEX]

  /** Addition of `u64` values that stops at the largest one. */
  function SaturatingAdd(a: nat, b: nat): (sum: nat)
    ensures sum < U64_LIMIT
  {
    if a + b < U64_LIMIT then a + b else U64_LIMIT - 1
  }

  // ---------------------------------------------------------------------------------------------
  // Packaging
  // ---------------------------------------------------------------------------------------------

  function ArchiveName(e: InventoryEntry): bytes {
    if e.directory then ROOT_SLASH + e.relative + [SLASH] else ROOT_SLASH + e.relative
  }

  function ModeFor(relative: bytes, directory: bool): nat {
    if !directory && relative in RELEASE_BINARIES then EXECUTABLE_MODE
    else if directory then EXECUTABLE_MODE
    else PLAIN_MODE
  }

  /** One member: a header, and for a file its bytes padded to whole blocks. */
  function MemberBytes(e: InventoryEntry): Result<bytes, ArchiveError> {
    var header :- MakeTarHeader(ArchiveName(e), e.directory, e.size, ModeFor(e.relative, e.directory));
    if e.directory then Ok(header)
    else if |e.content| != e.size then Err(ReleaseFileChanged)
    else Ok(header + e.content + Repeat(NUL, Padding(e.size)))
  }

  function WriteMember(written: bytes, e: InventoryEntry): Result<bytes, ArchiveError> {
    var member :- MemberBytes(e);
    if |written + member| > EXPANDED_LIMIT then Err(ExpansionLimit) else Ok(written + member)
  }

  function PackageMembers(written: bytes, es: seq<InventoryEntry>): Result<bytes, ArchiveError>
    decreases |es|
  {
    if es == [] then Ok(written)
    else
      var more :- WriteMember(written, es[0]);
      PackageMembers(more, es[1..])
  }

  function RecordPadding(size: nat): (n: nat)
    ensures (size + n) % TAR_RECORD == 0
  {
    assert size == TAR_RECORD * (size / TAR_RECORD) + size % TAR_RECORD;
    (TAR_RECORD - size % TAR_RECORD) % TAR_RECORD
  }

  /** The two zero blocks of the end marker, and the zeros that fill the last record. */
  function EndOfArchive(size: nat): bytes {
    Repeat(NUL, 2 * TAR_BLOCK) + Repeat(NUL, RecordPadding(size + 2 * TAR_BLOCK))
  }

  function PackageRelease(es: seq<InventoryEntry>): Result<bytes, ArchiveError> {
    var root :- MakeTarHeader(ROOT_SLASH, true, 0, EXECUTABLE_MODE);
    var members :- PackageMembers(root, es);
    Ok(members + EndOfArchive(|members|))
  }

  // ---------------------------------------------------------------------------------------------
  // The verifying pass
  // ---------------------------------------------------------------------------------------------

  function ReadTarBlock(src: Stream, pos: nat): (r: Result<Option<bytes>, ArchiveError>)
    requires pos <= |src.data|
    ensures r.Ok? && r.value.Some? ==> pos + TAR_BLOCK <= |src.data| && r.value.value == src.data[pos..pos + TAR_BLOCK]
  {
    if pos + TAR_BLOCK <= |src.data| then Ok(Some(src.data[pos..pos + TAR_BLOCK]))
    else if src.damaged then Err(Unreadable)
    else if pos == |src.data| then Ok(None)
    else Err(TruncatedHeader)
  }

  function SkipExact(src: Stream, pos: nat, count: nat): (r: Result<nat, ArchiveError>)
    requires pos <= |src.data|
    ensures r.Ok? ==> r.value == pos + count <= |src.data|
  {
    if pos + count <= |src.data| then Ok(pos + count)
    else if src.damaged then Err(Unreadable)
    else Err(TruncatedEntry)
  }

  /** The state of the member loop: `pos` bytes are consumed. */
  datatype Scan = Scan(pos: nat, expanded: nat, entries: seq<TarEntry>, seen: set<bytes>, types: map<bytes, bool>)

  const START: Scan := Scan(0, 0, [], {}, map[])

  datatype Step = Member(next: Scan) | EndMarker(next: Scan) | Exhausted

  function NextStep(src: Stream, s: Scan): (r: Result<Step, ArchiveError>)
    requires s.pos <= |src.data|
    ensures r.Ok? && !r.value.Exhausted? ==> s.pos < r.value.next.pos <= |src.data|
  {
    var block :- ReadTarBlock(src, s.pos);
    if block.None? then Ok(Exhausted)
    else
      var expanded := SaturatingAdd(s.expanded, TAR_BLOCK);
      if expanded > EXPANDED_LIMIT then Err(ExpansionLimit)
      else if AllZero(block.value) then EndStep(src, s.(pos := s.pos + TAR_BLOCK, expanded := expanded))
      else if |s.entries| >= ENTRY_LIMIT then Err(TooManyEntries)
      else
        var entry :- CheckTarHeader(block.value, s.seen, s.types);
        MemberStep(src, s.(pos := s.pos + TAR_BLOCK, expanded := expanded), entry)
  }

  /** After the first zero block. */
  function EndStep(src: Stream, s: Scan): (r: Result<Step, ArchiveError>)
    requires s.pos <= |src.data|
    ensures r.Ok? ==> r.value.EndMarker? && r.value.next.pos == s.pos + TAR_BLOCK <= |src.data|
  {
    var second :- ReadTarBlock(src, s.pos);
    if second.None? then Err(IncompleteEnd)
    else if !AllZero(second.value) then Err(InvalidEnd)
    else Ok(EndMarker(s.(pos := s.pos + TAR_BLOCK, expanded := SaturatingAdd(s.expanded, TAR_BLOCK))))
  }

  /** After an accepted header: its bytes and padding are skipped. */
  function MemberStep(src: Stream, s: Scan, entry: TarEntry): (r: Result<Step, ArchiveError>)
    requires s.pos <= |src.data|
    ensures r.Ok? ==> r.value.Member? && s.pos <= r.value.next.pos <= |src.data|
  {
    var withFile := if entry.directory then s.expanded else SaturatingAdd(s.expanded, entry.size);
    if !entry.directory && withFile > EXPANDED_LIMIT then Err(ExpansionLimit)
    else
      var afterFile :- SkipExact(src, s.pos, entry.size);
      var afterPadding :- SkipExact(src, afterFile, Padding(entry.size));
      var expanded := SaturatingAdd(withFile, Padding(entry.size));
      if expanded > EXPANDED_LIMIT then Err(ExpansionLimit)
      else Ok(Member(Scan(afterPadding, expanded, s.entries + [entry], s.seen + {entry.name},
                          s.types[entry.name := entry.directory])))
  }

  /** The member loop, up to and including the end marker. */
  function ScanMembers(src: Stream, s: Scan): (r: Result<Scan, ArchiveError>)
    requires s.pos <= |src.data|
    ensures r.Ok? ==> r.value.pos <= |src.data|
    decreases |src.data| - s.pos
  {
    var step :- NextStep(src, s);
    match step
    case Exhausted => Err(MissingRootOrEnd)
    case EndMarker(t) => Ok(t)
    case Member(t) => ScanMembers(src, t)
  }

  predicate IsFile(types: map<bytes, bool>, path: bytes) {
    path in types && !types[path]
  }

  predicate IsDirectory(types: map<bytes, bool>, path: bytes) {
    path in types && types[path]
  }

  predicate HasRequired(types: map<bytes, bool>) {
    forall i :: 0 <= i < |REQUIRED_FILES| ==> IsFile(types, ROOT_SLASH + REQUIRED_FILES[i])
  }

  predicate HasAssets(types: map<bytes, bool>) {
    exists path :: path in types.Keys && ROOT_SLASH + ASSETS_SLASH <= path
  }

  /** What may follow the end marker: zeros, and not too many. */
  function CheckTrailing(src: Stream, pos: nat, expanded: nat): Outcome<ArchiveError>
    requires pos <= |src.data|
  {
    if !AllZero(src.data[pos..]) then Fail(TrailingData)
    else if pos < |src.data| && SaturatingAdd(expanded, |src.data| - pos) > EXPANDED_LIMIT then Fail(ExpansionLimit)
    else if src.damaged then Fail(Unreadable)
    else Pass
  }

  function FirstPass(src: Stream): Result<seq<TarEntry>, ArchiveError> {
    var end :- ScanMembers(src, START);
    :- Need(IsDirectory(end.types, ROOT), MissingRootOrEnd);
    :- Need(HasRequired(end.types), MissingRequired);
    :- Need(HasAssets(end.types), MissingAssets);
    :- CheckTrailing(src, end.pos, end.expanded);
    Ok(end.entries)
  }

  // ---------------------------------------------------------------------------------------------
  // The extracting pass
  // ---------------------------------------------------------------------------------------------

  /** The extraction directory: what stands at each path. */
  datatype DiskNode = Folder | Regular(content: bytes, mode: nat)
  type Disk = map<bytes, DiskNode>

  /** `fs::create_dir_all`. */
  function CreateDirAll(disk: Disk, path: bytes): Result<Disk, ArchiveError>
    decreases |path|
  {
    if path in disk then if disk[path].Folder? then Ok(disk) else Err(CannotCreate)
    else match Parent(path)
      case None => Ok(disk[path := Folder])
      case Some(parent) =>
        var more :- CreateDirAll(disk, parent);
        Ok(more[path := Folder])
  }

  function CreateParent(disk: Disk, path: bytes): Result<Disk, ArchiveError> {
    match Parent(path)
    case None => Ok(disk)
    case Some(parent) => CreateDirAll(disk, parent)
  }

  /** Opening a new file for writing, which refuses to replace anything. */
  function CreateNew(disk: Disk, path: bytes): Outcome<ArchiveError> {
    if path in disk then Fail(CannotCreate) else Pass
  }

  datatype Extraction = Extraction(pos: nat, seen: set<bytes>, types: map<bytes, bool>, disk: Disk)

  const EXTRACTION_START: Extraction := Extraction(0, {}, map[], map[ROOT := Folder])

  function ExtractMember(src: Stream, x: Extraction, entry: TarEntry): (r: Result<Extraction, ArchiveError>)
    requires x.pos <= |src.data|
    ensures r.Ok? ==> r.value.pos <= |src.data|
  {
    var block :- ReadTarBlock(src, x.pos);
    if block.None? then Err(ArchiveChanged)
    else
      var check :- CheckTarHeader(block.value, x.seen, x.types);
      if check != entry then Err(ArchiveChanged)
      else
        var seen, types := x.seen + {entry.name}, x.types[entry.name := entry.directory];
        var pos := x.pos + TAR_BLOCK;
        if entry.name == ROOT then
          var after :- SkipExact(src, pos, entry.size);
          Ok(Extraction(after, seen, types, x.disk))
        else if entry.directory then
          var disk :- CreateDirAll(x.disk, entry.name);
          Ok(Extraction(pos, seen, types, disk))
        else
          var disk :- CreateParent(x.disk, entry.name);
          :- CreateNew(disk, entry.name);
          if pos + entry.size > |src.data| then Err(if src.damaged then Unreadable else ArchiveChanged)
          else
            var file := Regular(src.data[pos..pos + entry.size], ModeFor(Relative(entry.name), false));
            var after :- SkipExact(src, pos + entry.size, Padding(entry.size));
            Ok(Extraction(after, seen, types, disk[entry.name := file]))
  }

  function ExtractMembers(src: Stream, x: Extraction, entries: seq<TarEntry>): (r: Result<Extraction, ArchiveError>)
    requires x.pos <= |src.data|
    ensures r.Ok? ==> r.value.pos <= |src.data|
    decreases |entries|
  {
    if entries == [] then Ok(x)
    else
      var next :- ExtractMember(src, x, entries[0]);
      ExtractMembers(src, next, entries[1..])
  }

  function ExpectZeroBlock(src: Stream, pos: nat): (r: Result<nat, ArchiveError>)
    requires pos <= |src.data|
    ensures r.Ok? ==> r.value == pos + TAR_BLOCK <= |src.data|
  {
    var block :- ReadTarBlock(src, pos);
    if block.None? then Err(IncompleteEnd)
    else if !AllZero(block.value) then Err(InvalidEnd)
    else Ok(pos + TAR_BLOCK)
  }

  function ConsumeArchiveEnd(src: Stream, pos: nat): Outcome<ArchiveError>
    requires pos <= |src.data|
  {
    var first := ExpectZeroBlock(src, pos);
    if first.Err? then Fail(first.error)
    else
      var second := ExpectZeroBlock(src, first.value);
      if second.Err? then Fail(second.error)
      else
        var rest := src.data[second.value..];
        if rest != [] && (SaturatingAdd(2 * TAR_BLOCK, |rest|) > EXPANDED_LIMIT || !AllZero(rest)) then
          Fail(TrailingData)
        else if src.damaged then Fail(Unreadable)
        else Pass
  }

  function SecondPass(src: Stream, entries: seq<TarEntry>): Result<Disk, ArchiveError> {
    var x :- ExtractMembers(src, EXTRACTION_START, entries);
    :- ConsumeArchiveEnd(src, x.pos);
    Ok(x.disk)
  }

  /** The archive file is opened once for each pass, and another may be there the second time. */
  function ExtractReopened(first: Stream, second: Stream): Result<Disk, ArchiveError> {
    var entries :- FirstPass(first);
    SecondPass(second, entries)
  }

  function ExtractArchive(src: Stream): Result<Disk, ArchiveError> {
    ExtractReopened(src, src)
  }
}
