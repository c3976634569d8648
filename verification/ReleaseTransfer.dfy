/** The packager and the two reading passes as they run: buffers, readers, counters and loops, step for step. */
module ReleaseTransfer {
  import opened Wrappers
  import opened Bytes
  import opened Numerals
  import opened Sequences
  import opened Ustar
  import opened UstarRoundTrip
  import opened ReleaseInventory
  import opened ReleaseArchive
  import opened ByteReaders
  import opened TarBlocks

  const SKIP_BUFFER := 64 * 1024
  const TRAILING_BUFFER := 4096

  // ---------------------------------------------------------------------------------------------
  // The header buffer
  // ---------------------------------------------------------------------------------------------

  /** `copy_from_slice` into part of a buffer. */
  method CopyInto(buffer: array<byte>, at: nat, text: bytes)
    requires at + |text| <= buffer.Length
    modifies buffer
    ensures buffer[..] == old(buffer[..at]) + text + old(buffer[at + |text|..])
  {
    forall i | 0 <= i < |text| {
      buffer[at + i] := text[i];
    }
  }

  /** `put_octal` on the bytes from `start` to `end`. */
  method PutOctal(buffer: array<byte>, start: nat, end: nat, value: nat) returns (r: Outcome<ArchiveError>)
    requires start < end <= buffer.Length
    modifies buffer
    ensures r.Pass? <==> OctalField(value, end - start).Ok?
    ensures r.Pass? ==> buffer[..] == old(buffer[..start]) + OctalField(value, end - start).value + old(buffer[end..])
    ensures r.Fail? ==> r == Fail(FieldOverflow) && buffer[..] == old(buffer[..])
  {
    var digits := Digits(value, 8);
    if |digits| + 1 > end - start {
      return Fail(FieldOverflow);
    }
    forall i | start <= i < end {
      buffer[i] := ZERO;
    }
    var first := end - |digits| - 1;
    CopyInto(buffer, first, digits);
    buffer[end - 1] := NUL;
    return Pass;
  }

  /** The search for a slash to split at, from the right. */
  method FindSplit(name: bytes) returns (split: Option<nat>)
    ensures split == SplitIndex(name, |name|)
  {
    split := None;
    var index := |name|;
    while index > 0
      invariant 0 <= index <= |name|
      invariant SplitIndex(name, |name|) == SplitIndex(name, index)
    {
      index := index - 1;
      if name[index] == SLASH && index <= PREFIX_FIELD && |name| - index - 1 <= NAME_FIELD {
        return Some(index);
      }
    }
  }

  /** The buffer holds the fields written so far and zeros after them. */
  ghost predicate Filled(buffer: array<byte>, built: bytes)
    reads buffer
  {
    |built| <= buffer.Length && buffer[..] == built + Repeat(NUL, buffer.Length - |built|)
  }

  /** A text field of the given width, zeros included. */
  method AppendText(buffer: array<byte>, ghost built: bytes, start: nat, text: bytes, width: nat)
    requires Filled(buffer, built) && start == |built| && |text| <= width && start + width <= buffer.Length
    modifies buffer
    ensures Filled(buffer, built + text + Repeat(NUL, width - |text|))
  {
    CopyInto(buffer, start, text);
  }

  method AppendOctal(buffer: array<byte>, ghost built: bytes, start: nat, width: nat, value: nat)
    returns (r: Outcome<ArchiveError>)
    requires Filled(buffer, built) && start == |built| && 0 < width && |built| + width <= buffer.Length
    modifies buffer
    ensures r.Pass? <==> OctalField(value, width).Ok?
    ensures r.Pass? ==> Filled(buffer, built + OctalField(value, width).value)
    ensures r.Fail? ==> r == Fail(FieldOverflow)
  {
    r := PutOctal(buffer, start, start + width, value);
  }

  /** The fields before the checksum. */
  method WriteFront(buffer: array<byte>, namePart: bytes, mode: nat, size: nat) returns (r: Outcome<ArchiveError>)
    requires buffer.Length == TAR_BLOCK && Filled(buffer, []) && |namePart| <= NAME_FIELD
    modifies buffer
    ensures r.Pass? <==> OctalField(mode, 8).Ok? && OctalField(size, 12).Ok?
    ensures r.Pass? ==> Filled(buffer, Front(namePart, OctalField(mode, 8).value, OctalField(size, 12).value))
    ensures r.Fail? ==> r == Fail(FieldOverflow)
  {
    hide OctalField;
    ZeroFields();
    AppendText(buffer, [], 0, namePart, NAME_FIELD);
    ghost var built := namePart + Repeat(NUL, NAME_FIELD - |namePart|);
    assert [] + namePart + Repeat(NUL, NAME_FIELD - |namePart|) == built;
    hide Filled;
    r := AppendOctal(buffer, built, 100, 8, mode);
    if r.Fail? {
      return;
    }
    built := built + OctalField(mode, 8).value;
    r := AppendOctal(buffer, built, 108, 8, 0);
    r := AppendOctal(buffer, built + ZERO8, 116, 8, 0);
    built := built + ZERO8 + ZERO8;
    r := AppendOctal(buffer, built, 124, 12, size);
    if r.Fail? {
      return;
    }
    r := AppendOctal(buffer, built + OctalField(size, 12).value, 136, 12, 0);
  }

  /** The fields after the checksum. */
  method WriteBack(buffer: array<byte>, ghost front: bytes, prefixPart: bytes, directory: bool)
    requires buffer.Length == TAR_BLOCK && |front| == 156 && Filled(buffer, front) && |prefixPart| <= PREFIX_FIELD
    modifies buffer
    ensures buffer[..] == front + Back(prefixPart, directory)
  {
    hide OctalField;
    ZeroFields();
    ghost var kind, blank := [if directory then DIRECTORY_TYPE else FILE_TYPE], Repeat(NUL, 100);
    AppendText(buffer, front, 156, [if directory then DIRECTORY_TYPE else FILE_TYPE], 101);
    ghost var back := kind + blank;
    Regroup(front, kind, blank);
    AppendText(buffer, front + back, 257, MAGIC, 6);
    Regroup(front, back, MAGIC);
    NothingAdded(front + back + MAGIC);
    back := back + MAGIC;
    AppendText(buffer, front + back, 263, VERSION, 66);
    Regroup(front, back, VERSION);
    Regroup(front, back + VERSION, Repeat(NUL, 64));
    back := back + VERSION + Repeat(NUL, 64);
    hide Filled;
    var done := AppendOctal(buffer, front + back, 329, 8, 0);
    done := AppendOctal(buffer, front + back + ZERO8, 337, 8, 0);
    Regroup(front, back, ZERO8);
    Regroup(front, back + ZERO8, ZERO8);
    back := back + ZERO8 + ZERO8;
    AppendText(buffer, front + back, 345, prefixPart, PREFIX_FIELD);
    ghost var rest := Repeat(NUL, PREFIX_FIELD - |prefixPart|);
    FilledToEnd(buffer, front + back + prefixPart + rest);
    Regroup(front, back, prefixPart);
    Regroup(front, back + prefixPart, rest);
    Regroup(front, back + prefixPart + rest, Repeat(NUL, 12));
    BackIs(prefixPart, directory, back + prefixPart + rest + Repeat(NUL, 12));
  }

  lemma NothingAdded(a: bytes)
    ensures a + Repeat(NUL, 0) == a
  {
  }

  lemma BackIs(prefixPart: bytes, directory: bool, back: bytes)
    requires |prefixPart| <= PREFIX_FIELD
    requires back == [if directory then DIRECTORY_TYPE else FILE_TYPE] + Repeat(NUL, 100) + MAGIC
             + (VERSION + Repeat(NUL, 64)) + (ZERO8 + ZERO8)
                     + prefixPart + Repeat(NUL, PREFIX_FIELD - |prefixPart|) + Repeat(NUL, 12)
    ensures back == Back(prefixPart, directory)
  {
  }

  lemma FilledToEnd(buffer: array<byte>, built: bytes)
    requires Filled(buffer, built)
    ensures |built| <= buffer.Length && buffer[..] == built + Repeat(NUL, buffer.Length - |built|)
  {
  }

  /** `make_tar_header`. */
  method WriteTarHeader(name: bytes, directory: bool, size: nat, mode: nat)
    returns (r: Result<array<byte>, ArchiveError>)
    ensures r.Ok? <==> MakeTarHeader(name, directory, size, mode).Ok?
    ensures r.Ok? ==> fresh(r.value) && r.value[..] == MakeTarHeader(name, directory, size, mode).value
    ensures r.Err? ==> r.error == MakeTarHeader(name, directory, size, mode).error
  {
    hide OctalField, Digits;
    var namePart, prefixPart := name, [];
    if |name| > NAME_FIELD {
      var split := FindSplit(name);
      if split.None? {
        return Err(PathTooLong);
      }
      namePart, prefixPart := name[split.value + 1..], name[..split.value];
    }
    assert SplitName(name) == Ok((namePart, prefixPart));
    var written := if directory then 0 else size;
    var buffer := new byte[TAR_BLOCK](_ => NUL);
    var done := WriteFront(buffer, namePart, mode, written);
    if done.Fail? {
      FieldOverflows(mode, 8);
      FieldOverflows(written, 12);
      return Err(done.error);
    }
    ghost var front := Front(namePart, OctalField(mode, 8).value, OctalField(written, 12).value);
    AppendText(buffer, front, 148, Repeat(SPACE, 8), 8);
    assert front + Repeat(SPACE, 8) + Repeat(NUL, 0) == front + Repeat(SPACE, 8);
    WriteBack(buffer, front + Repeat(SPACE, 8), prefixPart, directory);
    ghost var before, back := buffer[..], Back(prefixPart, directory);
    var digits := ChecksumDigits(Sum(buffer[..]));
    if |digits| != 6 {
      return Err(ChecksumOverflow);
    }
    CopyInto(buffer, 148, digits);
    ghost var between := buffer[..];
    CopyInto(buffer, 154, [NUL, SPACE]);
    ChecksumPlaced(front, Repeat(SPACE, 8), back, digits, before, between, buffer[..]);
    return Ok(buffer);
  }

  /** Six digits, a zero and a space replace the eight spaces in two steps. */
  lemma ChecksumPlaced(front: bytes, blank: bytes, back: bytes, digits: bytes, before: bytes, between: bytes,
      after: bytes)
    requires |front| == 148 && |blank| == 8 && |digits| == 6 && before == front + blank + back
    requires between == before[..148] + digits + before[154..]
    requires after == between[..154] + [NUL, SPACE] + between[156..]
    ensures after == front + (digits + [NUL, SPACE]) + back
  {
    assert before[..148] == front && before[156..] == back;
    assert between[..154] == front + digits && between[156..] == back;
  }

  lemma FieldOverflows(value: nat, width: nat)
    ensures OctalField(value, width).Err? ==> OctalField(value, width).error == FieldOverflow
  {
  }

  // ---------------------------------------------------------------------------------------------
  // Reading blocks
  // ---------------------------------------------------------------------------------------------

  /** `read_exact_tar_block`: fills a block from as many reads as it takes. */
  method ReadBlock(reader: Reader) returns (r: Result<Option<bytes>, ArchiveError>)
    requires reader.Valid()
    modifies reader
    ensures reader.Valid()
    ensures r == ReadTarBlock(Source(reader), old(reader.pos))
    ensures r.Ok? ==> reader.pos == old(reader.pos) + if r.value.Some? then TAR_BLOCK else 0
  {
    var block := new byte[TAR_BLOCK](_ => NUL);
    var filled := 0;
    ghost var start := reader.pos;
    while filled < TAR_BLOCK
      invariant 0 <= filled <= TAR_BLOCK
      invariant reader.Valid() && reader.pos == start + filled
      invariant block[..filled] == reader.data[start..start + filled]
      decreases TAR_BLOCK - filled
    {
      var read := reader.Read(TAR_BLOCK - filled);
      if read.Err? {
        return Err(Unreadable);
      }
      if read.value == [] {
        return if filled == 0 then Ok(None) else Err(TruncatedHeader);
      }
      CopyInto(block, filled, read.value);
      filled := filled + |read.value|;
    }
    assert block[..] == block[..TAR_BLOCK];
    return Ok(Some(block[..]));
  }

  /** `skip_exact`. */
  method Skip(reader: Reader, count: nat) returns (r: Outcome<ArchiveError>)
    requires reader.Valid()
    modifies reader
    ensures reader.Valid()
    ensures r == match SkipExact(Source(reader), old(reader.pos), count) {
                   case Ok(_) => Pass
                   case Err(error) => Fail(error)
                 }
    ensures r.Pass? ==> reader.pos == old(reader.pos) + count
  {
    var remaining := count;
    while remaining > 0
      invariant 0 <= remaining <= count
      invariant reader.Valid() && reader.pos == old(reader.pos) + count - remaining
    {
      var amount := if remaining < SKIP_BUFFER then remaining else SKIP_BUFFER;
      var read := reader.Read(amount);
      if read.Err? {
        return Fail(Unreadable);
      }
      if read.value == [] {
        return Fail(TruncatedEntry);
      }
      remaining := remaining - |read.value|;
    }
    return Pass;
  }

  // ---------------------------------------------------------------------------------------------
  // The verifying pass
  // ---------------------------------------------------------------------------------------------

  /** The names and kinds met so far. */
  class History {
    var seen: set<bytes>
    var types: map<bytes, bool>

    constructor ()
      ensures seen == {} && types == map[]
    {
      seen, types := {}, map[];
    }

    /** `check_tar_header`: the name is recorded before the later checks, the kind after all of them. */
    method Check(header: bytes) returns (r: Result<TarEntry, ArchiveError>)
      requires |header| == TAR_BLOCK
      modifies this
      ensures r == CheckTarHeader(header, old(seen), old(types))
      ensures seen == old(seen) + (if CheckName(header).Ok? then {CheckName(header).value.1} else {})
      ensures types == if r.Ok? then old(types)[r.value.name := r.value.directory] else old(types)
    {
      hide CheckName, CheckNumbers, CheckPlace, AllowedDirectory, AllowedFile;
      var identity := CheckName(header);
      if identity.Err? {
        return Err(identity.error);
      }
      var (directory, name) := identity.value;
      if name in seen {
        return Err(DuplicatePath);
      }
      seen := seen + {name};
      if if directory then !AllowedDirectory(name) else !AllowedFile(name) {
        return Err(UnexpectedPath);
      }
      var numbers := CheckNumbers(header, directory);
      if numbers.Err? {
        return Err(numbers.error);
      }
      var place := CheckPlace(name, directory, numbers.value.0, types);
      if place.Fail? {
        return Err(place.error);
      }
      types := types[name := directory];
      return Ok(TarEntry(name, directory, numbers.value.1, numbers.value.0));
    }
  }

  /**
   The verifying pass agrees with the specification; a bad trailer may be reported by whichever fault is read first.
   */
  ghost predicate SameVerdict<T>(r: Result<T, ArchiveError>, spec: Result<T, ArchiveError>) {
    r == spec || (r.Err? && spec.Err? && TrailingError(r.error) && TrailingError(spec.error))
  }

  predicate TrailingError(error: ArchiveError) {
    error == TrailingData || error == ExpansionLimit || error == Unreadable
  }

  /** The bytes after the end marker. */
  method ReadTrailing(reader: Reader, expanded: nat) returns (r: Outcome<ArchiveError>)
    requires reader.Valid() && expanded < U64_LIMIT
    modifies reader
    ensures var spec := CheckTrailing(Source(reader), old(reader.pos), expanded);
            if spec.Pass? then r.Pass? else r.Fail? && TrailingError(r.error) && TrailingError(spec.error)
  {
    ghost var start := reader.pos;
    var total := expanded;
    while true
      invariant reader.Valid() && start <= reader.pos
      invariant total == SaturatingAdd(expanded, reader.pos - start)
      invariant AllZero(reader.data[start..reader.pos])
      invariant start == reader.pos || total <= EXPANDED_LIMIT
      decreases |reader.data| - reader.pos
    {
      ghost var before := reader.pos;
      var read := reader.Read(TRAILING_BUFFER);
      if read.Err? {
        assert reader.data[start..reader.pos] == reader.data[start..];
        return Fail(Unreadable);
      }
      if read.value == [] {
        assert reader.data[start..reader.pos] == reader.data[start..];
        return Pass;
      }
      ghost var rest := reader.data[start..];
      assert forall i :: 0 <= i < |read.value| ==> read.value[i] == rest[before - start + i];
      if !AllZero(read.value) {
        return Fail(TrailingData);
      }
      total := SaturatingAdd(total, |read.value|);
      if total > EXPANDED_LIMIT {
        return Fail(ExpansionLimit);
      }
      assert reader.data[start..reader.pos] == reader.data[start..before] + read.value;
    }
  }

  /** The second block of the end marker; the result is the new byte count. */
  method ReadSecondZero(reader: Reader, expanded: nat, ghost s: Scan) returns (r: Result<nat, ArchiveError>)
    requires reader.Valid() && s.pos == reader.pos && s.expanded == expanded
    modifies reader
    ensures reader.Valid() && (r.Ok? ==> reader.pos >= old(reader.pos))
    ensures var step := EndStep(Source(reader), s);
            if step.Err? then r == Err(step.error)
            else r.Ok? && step.value == EndMarker(s.(pos := reader.pos, expanded := r.value)) && r.value < U64_LIMIT
  {
    var second := ReadBlock(reader);
    if second.Err? {
      return Err(second.error);
    }
    if second.value.None? {
      return Err(IncompleteEnd);
    }
    if !AllZero(second.value.value) {
      return Err(InvalidEnd);
    }
    return Ok(SaturatingAdd(expanded, TAR_BLOCK));
  }

  /** Skips a member's bytes and padding; the result is the new byte count. */
  method SkipMember(reader: Reader, entry: TarEntry, expanded: nat, ghost s: Scan)
    returns (r: Result<nat, ArchiveError>)
    requires reader.Valid() && s.pos == reader.pos && s.expanded == expanded < U64_LIMIT
    modifies reader
    ensures reader.Valid() && (r.Ok? ==> reader.pos >= old(reader.pos))
    ensures var step := MemberStep(Source(reader), s, entry);
            if step.Err? then r == Err(step.error)
            else r.Ok? && r.value < U64_LIMIT &&
                 step.value == Member(Scan(reader.pos, r.value, s.entries + [entry], s.seen + {entry.name},
                                           s.types[entry.name := entry.directory]))
  {
    hide SaturatingAdd;
    var count := expanded;
    if !entry.directory {
      count := SaturatingAdd(count, entry.size);
      if count > EXPANDED_LIMIT {
        return Err(ExpansionLimit);
      }
    }
    var skipped := Skip(reader, entry.size);
    if skipped.Fail? {
      return Err(skipped.error);
    }
    skipped := Skip(reader, Padding(entry.size));
    if skipped.Fail? {
      return Err(skipped.error);
    }
    count := SaturatingAdd(count, Padding(entry.size));
    if count > EXPANDED_LIMIT {
      return Err(ExpansionLimit);
    }
    return Ok(count);
  }

  /** The member loop of `first_pass_archive`; the result is the entries and the byte count after the end marker. */
  method ReadMembers(reader: Reader, history: History) returns (r: Result<(seq<TarEntry>, nat), ArchiveError>)
    requires reader.Valid() && reader.pos == 0 && history.seen == {} && history.types == map[]
    modifies reader, history
    ensures reader.Valid()
    ensures var spec := ScanMembers(Source(reader), START);
            if spec.Err? then r == Err(spec.error)
            else r.Ok? && r.value.1 < U64_LIMIT &&
                 spec.value == Scan(reader.pos, r.value.1, r.value.0, history.seen, history.types)
  {
    hide CheckTarHeader, CheckName, AllZero, SaturatingAdd, MemberStep, EndStep;
    ghost var src := Source(reader);
    var entries: seq<TarEntry> := [];
    var expanded := 0;
    ghost var scan := START;
    while true
      invariant reader.Valid() && 0 <= expanded < U64_LIMIT
      invariant scan == Scan(reader.pos, expanded, entries, history.seen, history.types)
      invariant ScanMembers(src, START) == ScanMembers(src, scan)
      decreases |reader.data| - reader.pos
    {
      var block := ReadBlock(reader);
      if block.Err? {
        return Err(block.error);
      }
      if block.value.None? {
        return Err(MissingRootOrEnd);
      }
      var header := block.value.value;
      expanded := SaturatingAdd(expanded, TAR_BLOCK);
      if expanded > EXPANDED_LIMIT {
        return Err(ExpansionLimit);
      }
      if AllZero(header) {
        var second := ReadSecondZero(reader, expanded, scan.(pos := reader.pos, expanded := expanded));
        return if second.Err? then Err(second.error) else Ok((entries, second.value));
      }
      if |entries| >= ENTRY_LIMIT {
        return Err(TooManyEntries);
      }
      var checked := history.Check(header);
      if checked.Err? {
        return Err(checked.error);
      }
      var entry := checked.value;
      NameRecorded(header, scan.seen, scan.types);
      var skipped := SkipMember(reader, entry, expanded, scan.(pos := reader.pos, expanded := expanded));
      if skipped.Err? {
        return Err(skipped.error);
      }
      expanded := skipped.value;
      entries := entries + [entry];
      scan := Scan(reader.pos, expanded, entries, history.seen, history.types);
    }
  }

  /** `first_pass_archive`. */
  method RunFirstPass(reader: Reader) returns (r: Result<seq<TarEntry>, ArchiveError>)
    requires reader.Valid() && reader.pos == 0
    modifies reader
    ensures SameVerdict(r, FirstPass(Source(reader)))
  {
    hide ScanMembers, HasRequired, HasAssets, CheckTrailing, IsDirectory;
    var history := new History();
    var members := ReadMembers(reader, history);
    if members.Err? {
      return Err(members.error);
    }
    var (entries, expanded) := members.value;
    if !IsDirectory(history.types, ROOT) {
      return Err(MissingRootOrEnd);
    }
    if !HasRequired(history.types) {
      return Err(MissingRequired);
    }
    if !HasAssets(history.types) {
      return Err(MissingAssets);
    }
    var trailing := ReadTrailing(reader, expanded);
    if trailing.Fail? {
      return Err(trailing.error);
    }
    return Ok(entries);
  }

  lemma NameRecorded(header: bytes, seen: set<bytes>, types: map<bytes, bool>)
    requires |header| == TAR_BLOCK && CheckTarHeader(header, seen, types).Ok?
    ensures CheckName(header).Ok? && CheckName(header).value.1 == CheckTarHeader(header, seen, types).value.name
  {
    hide CheckName, CheckNumbers, CheckPlace, AllowedDirectory, AllowedFile;
  }

  // ---------------------------------------------------------------------------------------------
  // The extracting pass
  // ---------------------------------------------------------------------------------------------

  /** `io::copy` of at most `size` bytes. */
  method CopyFile(reader: Reader, size: nat) returns (r: Result<bytes, ArchiveError>)
    requires reader.Valid()
    modifies reader
    ensures reader.Valid()
    ensures var start := old(reader.pos);
            if start + size <= |reader.data| then r == Ok(reader.data[start..start + size])
              && reader.pos == start + size
            else r == Err(if reader.damaged then Unreadable else ArchiveChanged)
  {
    var content: bytes := [];
    ghost var start := reader.pos;
    while |content| < size
      invariant reader.Valid() && reader.pos == start + |content| && |content| <= size
      invariant content == reader.data[start..reader.pos]
      decreases size - |content|
    {
      var read := reader.Read(size - |content|);
      if read.Err? {
        return Err(Unreadable);
      }
      if read.value == [] {
        return Err(ArchiveChanged);
      }
      content := content + read.value;
    }
    return Ok(content);
  }

  /** The extraction directory, when it exists. */
  class Destination {
    var tree: Option<Disk>

    constructor (tree: Option<Disk>)
      ensures this.tree == tree
    {
      this.tree := tree;
    }
  }

  /** One member: its header again, then its place on disk. */
  method ExtractNext(reader: Reader, history: History, destination: Destination, entry: TarEntry)
    returns (r: Outcome<ArchiveError>)
    requires reader.Valid() && destination.tree.Some?
    modifies reader, history, destination
    ensures reader.Valid() && destination.tree.Some?
    ensures var spec := ExtractMember(Source(reader),
              Extraction(old(reader.pos), old(history.seen), old(history.types), old(destination.tree.value)), entry);
            if spec.Err? then r == Fail(spec.error)
            else r.Pass? && spec.value == Extraction(reader.pos, history.seen, history.types, destination.tree.value)
  {
    hide CheckTarHeader, CheckName, CreateDirAll, CreateParent, Relative, ModeFor;
    var disk := destination.tree.value;
    var block := ReadBlock(reader);
    if block.Err? {
      return Fail(block.error);
    }
    if block.value.None? {
      return Fail(ArchiveChanged);
    }
    var checked := history.Check(block.value.value);
    if checked.Err? {
      return Fail(checked.error);
    }
    NameRecorded(block.value.value, old(history.seen), old(history.types));
    if checked.value != entry {
      return Fail(ArchiveChanged);
    }
    if entry.name == ROOT {
      r := Skip(reader, entry.size);
      return;
    }
    if entry.directory {
      var made := CreateDirAll(disk, entry.name);
      if made.Err? {
        return Fail(made.error);
      }
      destination.tree := Some(made.value);
      return Pass;
    }
    var made := CreateParent(disk, entry.name);
    if made.Err? {
      return Fail(made.error);
    }
    var created := CreateNew(made.value, entry.name);
    if created.Fail? {
      return created;
    }
    var content := CopyFile(reader, entry.size);
    if content.Err? {
      return Fail(content.error);
    }
    destination.tree := Some(made.value[entry.name := Regular(content.value, ModeFor(Relative(entry.name), false))]);
    r := Skip(reader, Padding(entry.size));
  }

  /** `consume_archive_end`. */
  method ReadArchiveEnd(reader: Reader) returns (r: Outcome<ArchiveError>)
    requires reader.Valid()
    modifies reader
    ensures var spec := ConsumeArchiveEnd(Source(reader), old(reader.pos));
            if spec.Pass? then r.Pass?
            else r == spec || (r.Fail? && TrailingError(r.error) && TrailingError(spec.error))
  {
    hide AllZero;
    var i := 0;
    while i < 2
      invariant 0 <= i <= 2 && reader.Valid() && reader.pos == old(reader.pos) + i * TAR_BLOCK
      invariant i >= 1 ==> ExpectZeroBlock(Source(reader), old(reader.pos)) == Ok(old(reader.pos) + TAR_BLOCK)
      invariant i >= 2 ==> ExpectZeroBlock(Source(reader), old(reader.pos) + TAR_BLOCK) == Ok(reader.pos)
    {
      var block := ReadBlock(reader);
      if block.Err? {
        return Fail(block.error);
      }
      if block.value.None? {
        return Fail(IncompleteEnd);
      }
      if !AllZero(block.value.value) {
        return Fail(InvalidEnd);
      }
      i := i + 1;
    }
    r := ReadZeros(reader);
  }

  /** The zeros after the end marker, counted from the two blocks of the marker. */
  method ReadZeros(reader: Reader) returns (r: Outcome<ArchiveError>)
    requires reader.Valid()
    modifies reader
    ensures var rest := reader.data[old(reader.pos)..];
            var bad := rest != [] && (SaturatingAdd(2 * TAR_BLOCK, |rest|) > EXPANDED_LIMIT || !AllZero(rest));
            if bad || reader.damaged then r.Fail? && TrailingError(r.error) else r.Pass?
  {
    ghost var start := reader.pos;
    var total := 2 * TAR_BLOCK;
    while true
      invariant reader.Valid() && start <= reader.pos
      invariant total == SaturatingAdd(2 * TAR_BLOCK, reader.pos - start) <= EXPANDED_LIMIT
      invariant AllZero(reader.data[start..reader.pos])
      decreases |reader.data| - reader.pos
    {
      ghost var before := reader.pos;
      var read := reader.Read(TRAILING_BUFFER);
      if read.Err? {
        return Fail(Unreadable);
      }
      if read.value == [] {
        assert reader.data[start..reader.pos] == reader.data[start..];
        return Pass;
      }
      ghost var rest := reader.data[start..];
      assert forall i :: 0 <= i < |read.value| ==> read.value[i] == rest[before - start + i];
      total := SaturatingAdd(total, |read.value|);
      if total > EXPANDED_LIMIT || !AllZero(read.value) {
        return Fail(TrailingData);
      }
      assert reader.data[start..reader.pos] == reader.data[start..before] + read.value;
    }
  }

  /** The second pass into a directory that holds the release root. */
  method ExtractEntries(reader: Reader, destination: Destination, entries: seq<TarEntry>)
    returns (r: Outcome<ArchiveError>)
    requires reader.Valid() && reader.pos == 0 && destination.tree == Some(EXTRACTION_START.disk)
    modifies reader, destination
    ensures reader.Valid() && destination.tree.Some?
    ensures var spec := ExtractMembers(Source(reader), EXTRACTION_START, entries);
            if spec.Err? then r == Fail(spec.error)
            else r.Pass? && reader.pos == spec.value.pos && destination.tree == Some(spec.value.disk)
  {
    hide ExtractMember;
    ghost var src := Source(reader);
    var history := new History();
    var i := 0;
    ghost var x := EXTRACTION_START;
    while i < |entries|
      invariant 0 <= i <= |entries| && reader.Valid() && destination.tree.Some?
      invariant x == Extraction(reader.pos, history.seen, history.types, destination.tree.value)
      invariant ExtractMembers(src, EXTRACTION_START, entries) == ExtractMembers(src, x, entries[i..])
    {
      assert entries[i..][0] == entries[i] && entries[i..][1..] == entries[i + 1..];
      r := ExtractNext(reader, history, destination, entries[i]);
      if r.Fail? {
        return;
      }
      x := Extraction(reader.pos, history.seen, history.types, destination.tree.value);
      i := i + 1;
    }
    return Pass;
  }

  /**
   `extract_archive` on an archive file that may change between its two passes: the tree is there on success, and
   nothing is there after a failure.
   */
  method RunExtraction(first: Stream, second: Stream, destination: Destination) returns (r: Outcome<ArchiveError>)
    modifies destination
    ensures old(destination.tree).Some? ==> r == Fail(DestinationExists) && destination.tree == old(destination.tree)
    ensures old(destination.tree).None? ==>
              var spec := ExtractReopened(first, second);
              if spec.Ok? then r.Pass? && destination.tree == Some(spec.value)
              else r.Fail? && destination.tree == None &&
                   (r.error == spec.error || (TrailingError(r.error) && TrailingError(spec.error)))
  {
    hide FirstPass, ExtractMembers, ConsumeArchiveEnd;
    if destination.tree.Some? {
      return Fail(DestinationExists);
    }
    var reader := new Reader(first.data, first.damaged);
    var entries := RunFirstPass(reader);
    if entries.Err? {
      return Fail(entries.error);
    }
    destination.tree := Some(map[ROOT := Folder]);
    reader := new Reader(second.data, second.damaged);
    r := ExtractEntries(reader, destination, entries.value);
    if r.Pass? {
      r := ReadArchiveEnd(reader);
    }
    if r.Fail? {
      destination.tree := None;
    }
  }

  // ---------------------------------------------------------------------------------------------
  // Packaging
  // ---------------------------------------------------------------------------------------------

  /** The compressor, which keeps what it is given. */
  class Writer {
    var written: bytes

    constructor ()
      ensures written == []
    {
      written := [];
    }

    method WriteAll(piece: bytes)
      modifies this
      ensures written == old(written) + piece
    {
      written := written + piece;
    }
  }

  /** The archive-writing part of `package_release`, with its own count of the bytes written. */
  method RunPackaging(entries: seq<InventoryEntry>, output: Writer) returns (r: Outcome<ArchiveError>)
    requires output.written == []
    modifies output
    ensures var spec := PackageRelease(entries);
            if spec.Ok? then r.Pass? && output.written == spec.value else r == Fail(spec.error)
  {
    hide MakeTarHeader, ArchiveName, ModeFor;
    var rootHeader := WriteTarHeader(ROOT_SLASH, true, 0, EXECUTABLE_MODE);
    if rootHeader.Err? {
      return Fail(rootHeader.error);
    }
    output.WriteAll(rootHeader.value[..]);
    var tarSize := TAR_BLOCK;
    ghost var root := output.written;
    assert root == rootHeader.value[..];
    var i := 0;
    while i < |entries|
      invariant 0 <= i <= |entries|
      invariant tarSize == |output.written| <= EXPANDED_LIMIT
      invariant PackageMembers(root, entries) == PackageMembers(output.written, entries[i..])
    {
      assert entries[i..][0] == entries[i] && entries[i..][1..] == entries[i + 1..];
      var written := WriteEntry(output, entries[i], tarSize);
      if written.Err? {
        return Fail(written.error);
      }
      tarSize := written.value;
      i := i + 1;
    }
    output.WriteAll(Repeat(NUL, 2 * TAR_BLOCK));
    tarSize := tarSize + 2 * TAR_BLOCK;
    var recordPadding := RecordPadding(tarSize);
    if recordPadding > 0 {
      output.WriteAll(Repeat(NUL, recordPadding));
    }
    return Pass;
  }

  /** One entry of the packaging loop; the result is the new byte count. */
  method WriteEntry(output: Writer, entry: InventoryEntry, tarSize: nat) returns (r: Result<nat, ArchiveError>)
    requires tarSize == |output.written| <= EXPANDED_LIMIT
    modifies output
    ensures var spec := WriteMember(old(output.written), entry);
            if spec.Ok? then output.written == spec.value && r == Ok(|spec.value|) && |spec.value| <= EXPANDED_LIMIT
            else r == Err(spec.error)
  {
    hide MakeTarHeader, ArchiveName, ModeFor;
    var size := tarSize;
    var header := WriteTarHeader(ArchiveName(entry), entry.directory, entry.size,
        ModeFor(entry.relative, entry.directory));
    if header.Err? {
      return Err(header.error);
    }
    output.WriteAll(header.value[..]);
    size := size + TAR_BLOCK;
    if !entry.directory {
      if |entry.content| != entry.size {
        return Err(ReleaseFileChanged);
      }
      output.WriteAll(entry.content);
      size := SaturatingAdd(size, entry.size);
      var padding := Padding(entry.size);
      if padding > 0 {
        output.WriteAll(Repeat(NUL, padding));
        size := size + padding;
      }
    }
    if size > EXPANDED_LIMIT {
      return Err(ExpansionLimit);
    }
    return Ok(size);
  }
}
