/**
 What holds of every stream the verifying pass accepts, whoever wrote it: its size is bounded, and the
 extracting pass over the same bytes repeats the verifying pass member by member.
 */
module ReleaseTwoPass {
  import opened Wrappers
  import opened Bytes
  import opened Numerals
  import opened Paths
  import opened Ustar
  import opened ReleaseInventory
  import opened ReleaseArchive
  import opened ByteReaders
  import opened TarBlocks

  // ---------------------------------------------------------------------------------------------
  // Counting
  // ---------------------------------------------------------------------------------------------

  /** The blocks taken by accepted members. */
  ghost function StoredSize(entries: seq<TarEntry>): nat {
    if entries == [] then 0
    else
      var last := entries[|entries| - 1];
      StoredSize(entries[..|entries| - 1]) + TAR_BLOCK + last.size + Padding(last.size)
  }

  ghost function FileSizes(entries: seq<TarEntry>): nat {
    if entries == [] then 0 else FileSizes(entries[..|entries| - 1]) + entries[|entries| - 1].size
  }

  ghost predicate NamesKnown(s: Scan) {
    && s.seen == s.types.Keys
    && (forall i :: 0 <= i < |s.entries| ==>
          s.entries[i].name in s.types && s.types[s.entries[i].name] == s.entries[i].directory)
    && (forall p :: p in s.types ==> exists i :: 0 <= i < |s.entries| && s.entries[i].name == p)
  }

  ghost predicate EntrySane(e: TarEntry) {
    && e.size <= FILE_LIMIT
    && (e.directory ==> e.size == 0)
    && (e.name == ROOT ==> e.directory)
    && (e.name == ROOT || Above(ROOT, e.name))
  }

  /** What every loop head of the verifying pass satisfies. */
  ghost predicate Counted(s: Scan) {
    && s.expanded == s.pos == StoredSize(s.entries) <= EXPANDED_LIMIT
    && s.pos % TAR_BLOCK == 0
    && |s.entries| <= ENTRY_LIMIT
    && (forall i :: 0 <= i < |s.entries| ==> EntrySane(s.entries[i]))
    && NamesKnown(s)
  }

  /** A name the verifier lets through is the root or lies beneath it. */
  lemma SafeNameRooted(name: bytes)
    requires SafeArchiveName(name).Ok?
    ensures var n := SafeArchiveName(name).value; n == ROOT || Above(ROOT, n)
  {
    var n := SafeArchiveName(name).value;
    var i := IndexOf(n, SLASH);
    assert Components(n)[0] == n[..i];
    if i == |n| {
      assert n[..i] == n;
    } else {
      assert n[..i + 1] == ROOT + [SLASH];
    }
  }

  lemma MemberNameRooted(header: bytes, directory: bool)
    requires |header| == TAR_BLOCK && ArchiveMemberName(header, directory).Ok?
    ensures var n := ArchiveMemberName(header, directory).value; n == ROOT || Above(ROOT, n)
  {
    var name, prefix := FieldText(header[..100]).value, FieldText(header[345..500]).value;
    var value := if prefix == [] then name else prefix + [SLASH] + name;
    var path := if directory && !EndsWithSlash(value) then value + [SLASH] else value;
    hide FieldText;
    assert ArchiveMemberName(header, directory) == SafeArchiveName(path);
    SafeNameRooted(path);
  }

  lemma CheckedEntry(header: bytes, seen: set<bytes>, types: map<bytes, bool>)
    requires |header| == TAR_BLOCK && CheckTarHeader(header, seen, types).Ok?
    ensures EntrySane(CheckTarHeader(header, seen, types).value)
    ensures CheckTarHeader(header, seen, types).value.name !in seen
  {
    hide CheckKind, ArchiveMemberName, CheckNumbers, AllowedDirectory, AllowedFile, Relative, Executable;
    var (directory, name) := CheckName(header).value;
    MemberNameRooted(header, directory);
  }

  lemma StepCounts(src: Stream, s: Scan)
    requires s.pos <= |src.data| && Counted(s) && NextStep(src, s).Ok?
    ensures var step := NextStep(src, s).value;
            && (step.Member? ==> Counted(step.next))
            && (step.EndMarker? ==>
                  step.next == s.(pos := s.pos + 2 * TAR_BLOCK, expanded := s.pos + 2 * TAR_BLOCK)
                  && s.pos + TAR_BLOCK <= EXPANDED_LIMIT)
  {
    var step := NextStep(src, s).value;
    if step.Member? {
      MemberFacts(src, s);
    }
  }

  /** The state after one more member. */
  ghost predicate Extends(s: Scan, e: TarEntry, t: Scan) {
    && t.entries == s.entries + [e]
    && t.seen == s.seen + {e.name}
    && t.types == s.types[e.name := e.directory]
    && t.pos == t.expanded == s.pos + TAR_BLOCK + e.size + Padding(e.size) <= EXPANDED_LIMIT
    && |s.entries| < ENTRY_LIMIT
    && e.name !in s.seen
  }

  /** One more member: where the state comes from. */
  lemma MemberFacts(src: Stream, s: Scan)
    requires s.pos <= |src.data| && Counted(s)
    requires NextStep(src, s).Ok? && NextStep(src, s).value.Member?
    ensures s.pos + TAR_BLOCK <= |src.data|
    ensures var check := CheckTarHeader(src.data[s.pos..s.pos + TAR_BLOCK], s.seen, s.types);
            && check.Ok? && EntrySane(check.value)
            && Extends(s, check.value, NextStep(src, s).value.next)
    ensures Counted(NextStep(src, s).value.next)
  {
    hide CheckTarHeader;
    var header := src.data[s.pos..s.pos + TAR_BLOCK];
    CheckedEntry(header, s.seen, s.types);
    var e := CheckTarHeader(header, s.seen, s.types).value;
    var t := NextStep(src, s).value.next;
    assert Extends(s, e, t) by {
      hide Counted;
    }
    hide NextStep;
    ExtendsCounted(s, e, t);
  }

  lemma ExtendsCounted(s: Scan, e: TarEntry, t: Scan)
    requires Counted(s) && EntrySane(e) && Extends(s, e, t)
    ensures Counted(t)
  {
    hide EntrySane, NamesKnown, StoredSize;
    ExtendsStored(s, e, t);
    ExtendsNames(s, e, t);
    hide Padding;
    assert forall i :: 0 <= i < |s.entries| ==> t.entries[i] == s.entries[i];
  }

  lemma ExtendsStored(s: Scan, e: TarEntry, t: Scan)
    requires Extends(s, e, t)
    ensures StoredSize(t.entries) == StoredSize(s.entries) + TAR_BLOCK + e.size + Padding(e.size)
    ensures (TAR_BLOCK + e.size + Padding(e.size)) % TAR_BLOCK == 0
  {
    assert t.entries[..|t.entries| - 1] == s.entries;
  }

  lemma ExtendsNames(s: Scan, e: TarEntry, t: Scan)
    requires NamesKnown(s) && Extends(s, e, t)
    ensures NamesKnown(t)
  {
    hide StoredSize, Padding;
    assert t.entries[|s.entries|] == e;
    assert forall i :: 0 <= i < |s.entries| ==> t.entries[i] == s.entries[i];
  }

  /** The state after `k` members. */
  ghost function Head(src: Stream, k: nat): (r: Option<Scan>)
    ensures r.Some? ==> r.value.pos <= |src.data|
  {
    if k == 0 then Some(START)
    else
      var before := Head(src, k - 1);
      if before.None? then None
      else
        var step := NextStep(src, before.value);
        if step.Ok? && step.value.Member? then Some(step.value.next) else None
  }

  /** At each loop head `expanded` equals the bytes consumed and is a multiple of 512, on every stream. */
  lemma {:induction false} HeadsCounted(src: Stream, k: nat)
    requires Head(src, k).Some?
    ensures Counted(Head(src, k).value)
    ensures |Head(src, k).value.entries| == k
  {
    hide NextStep;
    if k > 0 {
      HeadsCounted(src, k - 1);
      MemberFacts(src, Head(src, k - 1).value);
    }
  }

  /** An accepted member loop ends with an end marker after a counted loop head. */
  lemma {:induction false} ScanCounts(src: Stream, s: Scan) returns (head: Scan)
    requires s.pos <= |src.data| && Counted(s) && ScanMembers(src, s).Ok?
    ensures Counted(head) && head.pos + TAR_BLOCK <= EXPANDED_LIMIT
    ensures ScanMembers(src, s).value == head.(pos := head.pos + 2 * TAR_BLOCK, expanded := head.pos + 2 * TAR_BLOCK)
    ensures head.pos + 2 * TAR_BLOCK <= |src.data|
    decreases |src.data| - s.pos
  {
    StepCounts(src, s);
    var step := NextStep(src, s).value;
    if step.EndMarker? {
      head := s;
    } else {
      head := ScanCounts(src, step.next);
    }
  }

  lemma {:induction false} SizesStored(entries: seq<TarEntry>)
    ensures FileSizes(entries) + TAR_BLOCK * |entries| <= StoredSize(entries)
  {
    if entries != [] {
      SizesStored(entries[..|entries| - 1]);
    }
  }

  /** Accepted streams are undamaged and bounded in total length, file bytes, file size and entry count. */
  lemma ExpansionBound(src: Stream)
    requires FirstPass(src).Ok?
    ensures !src.damaged
    ensures |src.data| <= EXPANDED_LIMIT + TAR_BLOCK
    ensures |src.data| > EXPANDED_LIMIT ==> |src.data| == StoredSize(FirstPass(src).value) + 2 * TAR_BLOCK
    ensures FileSizes(FirstPass(src).value) <= StoredSize(FirstPass(src).value) <= EXPANDED_LIMIT - TAR_BLOCK
    ensures |FirstPass(src).value| <= ENTRY_LIMIT
    ensures forall e :: e in FirstPass(src).value ==> e.size <= FILE_LIMIT
  {
    hide FirstPass, CheckTrailing, ScanMembers, NamesKnown;
    var head := AcceptedHead(src);
    SizesStored(head.entries);
    TrailingBound(src, head.pos + 2 * TAR_BLOCK, head.pos + 2 * TAR_BLOCK);
    assert forall e :: e in head.entries ==> EntrySane(e);
  }

  /** An accepted stream is its counted members, the end marker, and what may follow. */
  lemma AcceptedHead(src: Stream) returns (head: Scan)
    requires FirstPass(src).Ok?
    ensures Counted(head) && head.pos + TAR_BLOCK <= EXPANDED_LIMIT && head.pos + 2 * TAR_BLOCK <= |src.data|
    ensures FirstPass(src).value == head.entries
    ensures CheckTrailing(src, head.pos + 2 * TAR_BLOCK, head.pos + 2 * TAR_BLOCK).Pass?
  {
    hide ScanMembers, HasRequired, HasAssets, CheckTrailing, Counted;
    StartCounted();
    head := ScanCounts(src, START);
  }

  lemma StartCounted()
    ensures Counted(START)
  {
  }

  lemma TrailingBound(src: Stream, pos: nat, expanded: nat)
    requires pos <= |src.data| && expanded < U64_LIMIT && CheckTrailing(src, pos, expanded).Pass?
    ensures !src.damaged && (pos < |src.data| ==> expanded + |src.data| - pos <= EXPANDED_LIMIT)
  {
    hide AllZero;
  }

  // ---------------------------------------------------------------------------------------------
  // The second pass repeats the first
  // ---------------------------------------------------------------------------------------------

  /** The disk operations of one member. */
  ghost function Place(disk: Disk, e: TarEntry, content: bytes): Result<Disk, ArchiveError> {
    if e.name == ROOT then Ok(disk)
    else if e.directory then CreateDirAll(disk, e.name)
    else
      var more :- CreateParent(disk, e.name);
      :- CreateNew(more, e.name);
      Ok(more[e.name := Regular(content, ModeFor(Relative(e.name), false))])
  }

  ghost predicate HasContent(src: Stream, pos: nat, e: TarEntry) {
    pos + TAR_BLOCK + e.size <= |src.data|
  }

  ghost function ContentAt(src: Stream, pos: nat, e: TarEntry): bytes
    requires HasContent(src, pos, e)
  {
    src.data[pos + TAR_BLOCK..pos + TAR_BLOCK + e.size]
  }

  /** Where the first pass accepted a member, the second pass accepts the same one; only the disk can refuse. */
  lemma MemberRepeats(src: Stream, s: Scan, disk: Disk)
    requires s.pos <= |src.data| && Counted(s)
    requires NextStep(src, s).Ok? && NextStep(src, s).value.Member?
    ensures var t := NextStep(src, s).value.next;
            && |t.entries| == |s.entries| + 1
            && var e := t.entries[|s.entries|];
            && HasContent(src, s.pos, e)
            && ExtractMember(src, Extraction(s.pos, s.seen, s.types, disk), e) ==
               match Place(disk, e, ContentAt(src, s.pos, e)) {
                 case Ok(d) => Ok(Extraction(t.pos, t.seen, t.types, d))
                 case Err(error) => Err(error)
               }
  {
    hide CheckTarHeader, CreateParent, CreateNew, CreateDirAll, ModeFor, Relative, Counted;
    MemberFacts(src, s);
    hide NextStep;
  }

  /** The disk operations of a run of members starting at `pos`. */
  ghost function PlaceAll(src: Stream, pos: nat, disk: Disk, entries: seq<TarEntry>): Result<Disk, ArchiveError>
    decreases |entries|
  {
    if entries == [] then Ok(disk)
    else
      var e := entries[0];
      if !HasContent(src, pos, e) then Err(TruncatedEntry)
      else
        var more :- Place(disk, e, ContentAt(src, pos, e));
        PlaceAll(src, pos + TAR_BLOCK + e.size + Padding(e.size), more, entries[1..])
  }

  lemma {:induction false} ScanExtends(src: Stream, s: Scan)
    requires s.pos <= |src.data| && Counted(s) && ScanMembers(src, s).Ok?
    ensures s.entries <= ScanMembers(src, s).value.entries
    decreases |src.data| - s.pos
  {
    StepCounts(src, s);
    var step := NextStep(src, s).value;
    if step.Member? {
      MemberFacts(src, s);
      ScanExtends(src, step.next);
    }
  }

  /** The second pass ends with the disk `placed`, before the end marker that `end` has passed. */
  ghost predicate Repeats(x: Result<Extraction, ArchiveError>, placed: Result<Disk, ArchiveError>, end: Scan) {
    if placed.Err? then x == Err(placed.error)
    else end.pos >= 2 * TAR_BLOCK && x == Ok(Extraction(end.pos - 2 * TAR_BLOCK, end.seen, end.types, placed.value))
  }

  lemma RepeatsCons(src: Stream, s: Scan, disk: Disk, tail: seq<TarEntry>, end: Scan)
    requires s.pos <= |src.data| && Counted(s)
    requires NextStep(src, s).Ok? && NextStep(src, s).value.Member?
    requires var t := NextStep(src, s).value.next;
             && t.pos <= |src.data|
             && forall d :: Repeats(ExtractMembers(src, Extraction(t.pos, t.seen, t.types, d), tail),
                                    PlaceAll(src, t.pos, d, tail), end)
    ensures var t := NextStep(src, s).value.next;
            && |t.entries| == |s.entries| + 1
            && var rest := [t.entries[|s.entries|]] + tail;
            Repeats(ExtractMembers(src, Extraction(s.pos, s.seen, s.types, disk), rest),
                    PlaceAll(src, s.pos, disk, rest), end)
  {
    hide ExtractMember, Place, CheckTarHeader, EntrySane, NamesKnown, StoredSize;
    MemberFacts(src, s);
    MemberRepeats(src, s, disk);
    var t := NextStep(src, s).value.next;
    hide NextStep, Counted, HasContent;
    var rest := [t.entries[|s.entries|]] + tail;
    assert rest[1..] == tail;
  }

  /** After the members the second pass stands at the end marker, with the names and kinds of the first. */
  lemma {:induction false} MembersRepeat(src: Stream, s: Scan, disk: Disk)
    requires s.pos <= |src.data| && Counted(s) && ScanMembers(src, s).Ok?
    ensures var end := ScanMembers(src, s).value;
            && s.entries <= end.entries
            && var rest := end.entries[|s.entries|..];
            Repeats(ExtractMembers(src, Extraction(s.pos, s.seen, s.types, disk), rest),
                    PlaceAll(src, s.pos, disk, rest), end)
    decreases |src.data| - s.pos
  {
    hide CheckTarHeader, EntrySane, NamesKnown, StoredSize;
    StepCounts(src, s);
    ScanExtends(src, s);
    var end := ScanMembers(src, s).value;
    var step := NextStep(src, s).value;
    var rest := end.entries[|s.entries|..];
    if step.EndMarker? {
      assert rest == [];
    } else {
      var t := step.next;
      MemberFacts(src, s);
      hide NextStep, Counted;
      ScanExtends(src, t);
      var tail := end.entries[|t.entries|..];
      assert rest == [t.entries[|s.entries|]] + tail;
      forall d
        ensures Repeats(ExtractMembers(src, Extraction(t.pos, t.seen, t.types, d), tail),
                        PlaceAll(src, t.pos, d, tail), end)
      {
        MembersRepeat(src, t, d);
      }
      RepeatsCons(src, s, disk, tail, end);
    }
  }

  /** The end marker the first pass accepted is accepted again. */
  lemma EndRepeats(src: Stream)
    requires FirstPass(src).Ok?
    ensures var end := ScanMembers(src, START).value;
            end.pos >= 2 * TAR_BLOCK && ConsumeArchiveEnd(src, end.pos - 2 * TAR_BLOCK) == Pass
  {
    hide ScanMembers, HasRequired, HasAssets;
    var head := ScanCounts(src, START);
    ScanEndsWithZeros(src, START);
  }

  lemma {:induction false} ScanEndsWithZeros(src: Stream, s: Scan)
    requires s.pos <= |src.data| && ScanMembers(src, s).Ok?
    ensures var end := ScanMembers(src, s).value.pos;
            && 2 * TAR_BLOCK <= end <= |src.data|
            && AllZero(src.data[end - 2 * TAR_BLOCK..end - TAR_BLOCK]) && AllZero(src.data[end - TAR_BLOCK..end])
    decreases |src.data| - s.pos
  {
    hide NextStep, AllZero;
    var step := NextStep(src, s).value;
    if step.Member? {
      ScanEndsWithZeros(src, step.next);
    } else {
      EndIsZeros(src, s);
    }
  }

  lemma EndIsZeros(src: Stream, s: Scan)
    requires s.pos <= |src.data| && NextStep(src, s).Ok? && NextStep(src, s).value.EndMarker?
    ensures var end := NextStep(src, s).value.next.pos;
            && 2 * TAR_BLOCK <= end <= |src.data|
            && AllZero(src.data[end - 2 * TAR_BLOCK..end - TAR_BLOCK]) && AllZero(src.data[end - TAR_BLOCK..end])
  {
    hide CheckTarHeader, AllZero, MemberStep;
  }

  /** On any accepted stream extraction fails only in the disk operations, never because the passes disagree. */
  lemma TwoPassAgreement(src: Stream)
    requires FirstPass(src).Ok?
    ensures ExtractArchive(src) == PlaceAll(src, 0, EXTRACTION_START.disk, FirstPass(src).value)
  {
    hide ScanMembers, PlaceAll, ExtractMembers, ConsumeArchiveEnd, HasRequired, HasAssets;
    var head := ScanCounts(src, START);
    MembersRepeat(src, START, EXTRACTION_START.disk);
    EndRepeats(src);
    var end := ScanMembers(src, START).value;
    assert end.entries[0..] == end.entries;
  }
}
