/**
 The 512-byte member header of release archives, as the packager writes it and the verifier reads it
 ("ustar Interchange Format" of `pax`, Shell & Utilities volume, IEEE Std 1003.1-2017).
 */
module Ustar {
  import opened Wrappers
  import opened Bytes
  import opened Numerals
  import opened Paths
  import opened TarBlocks
  import Utf8

  const TAR_BLOCK := BLOCK
  const NAME_FIELD := 100
  const PREFIX_FIELD := 155
  const PATH_LIMIT := 1024
  const FILE_LIMIT := 128 * 1024 * 1024

  const MAGIC: bytes := [0x75, 0x73, 0x74, 0x61, 0x72, 0x00]
  const VERSION: bytes := [0x30, 0x30]
  const FILE_TYPE: byte := 0x30
  const DIRECTORY_TYPE: byte := 0x35

  const ROOT: bytes := Text("release")
  const ROOT_SLASH: bytes := ROOT + [SLASH]
  const STATIC: bytes := Text("static")
  const STATIC_SLASH: bytes := STATIC + [SLASH]
  const SOURCE_COMMIT: bytes := Text("source-commit")
  const MANIFEST: bytes := Text("manifest.json")
  const RELEASE_BINARIES: seq<bytes> := [
    Text("lumistripe-web"),
    Text("lumistripe-engine"),
    Text("lumistripe"),
    Text("lumistripe-deploy-helper")
  ]

  datatype ArchiveError =
    | PathTooLong
    | FieldOverflow
    | ChecksumOverflow
    | InvalidNumber
    | OverflowingNumber
    | DataAfterTerminator
    | NonUtf8Path
    | InvalidUstarPath
    | InvalidPath
    | UnsafePath
    | PathOutsideRoot
    | InvalidHeader
    | UnsupportedType
    | DuplicatePath
    | UnexpectedPath
    | UnsafeMode
    | UnexpectedOwner
    | UnsupportedMetadata
    | FileTooLarge
    | BinaryNotExecutable
    | FileExecutable
    | RootNotDirectory
    | FileAsParent
    | FileConflictsWithDirectory
    | Unreadable
    | TruncatedHeader
    | TruncatedEntry
    | IncompleteEnd
    | InvalidEnd
    | TooManyEntries
    | ExpansionLimit
    | MissingRootOrEnd
    | MissingRequired
    | MissingAssets
    | TrailingData
    | ArchiveChanged
    | ReleaseFileChanged
    | CannotCreate
    | DestinationExists

  datatype TarEntry = TarEntry(name: bytes, directory: bool, size: nat, mode: nat)

  // ---------------------------------------------------------------------------------------------
  // Writing
  // ---------------------------------------------------------------------------------------------

  /** The rightmost slash before `upto` that leaves a prefix of at most 155 and a name of at most 100 bytes. */
  function SplitIndex(name: bytes, upto: nat): (r: Option<nat>)
    requires upto <= |name|
    ensures r.Some? ==> r.value < upto && SplitsAt(name, r.value)
    ensures r.Some? ==> forall i :: r.value < i < upto ==> !SplitsAt(name, i)
    ensures r.None? ==> forall i :: 0 <= i < upto ==> !SplitsAt(name, i)
  {
    if upto == 0 then None
    else if SplitsAt(name, upto - 1) then Some(upto - 1)
    else SplitIndex(name, upto - 1)
  }

  predicate SplitsAt(name: bytes, i: nat) {
    i < |name| && name[i] == SLASH && i <= PREFIX_FIELD && |name| - i - 1 <= NAME_FIELD
  }

  /** The name and prefix fields of a path. */
  function SplitName(name: bytes): (r: Result<(bytes, bytes), ArchiveError>)
    ensures r.Ok? ==> |r.value.0| <= NAME_FIELD && |r.value.1| <= PREFIX_FIELD
  {
    if |name| <= NAME_FIELD then Ok((name, []))
    else match SplitIndex(name, |name|)
      case None => Err(PathTooLong)
      case Some(i) => Ok((name[i + 1..], name[..i]))
  }

  /** `put_octal`: zero-padded digits and a terminating NUL. */
  function OctalField(value: nat, width: nat): (r: Result<bytes, ArchiveError>)
    ensures r.Ok? ==> |r.value| == width
  {
    var digits := Digits(value, 8);
    if |digits| + 1 > width then Err(FieldOverflow)
    else Ok(Repeat(ZERO, width - |digits| - 1) + digits + [NUL])
  }

  // The octal fields that are always zero: owner, group and device numbers, and the modification time.
  const ZERO8: bytes := Repeat(ZERO, 7) + [NUL]
  const ZERO12: bytes := Repeat(ZERO, 11) + [NUL]

  /** The header up to the checksum field. */
  function Front(namePart: bytes, mode: bytes, size: bytes): (front: bytes)
    requires |namePart| <= NAME_FIELD && |mode| == 8 && |size| == 12
    ensures |front| == 148
  {
    namePart + Repeat(NUL, NAME_FIELD - |namePart|) + mode + ZERO8 + ZERO8 + size + ZERO12
  }

  /** The header after the checksum field. */
  function Back(prefixPart: bytes, directory: bool): (back: bytes)
    requires |prefixPart| <= PREFIX_FIELD
    ensures |back| == 356
  {
    [if directory then DIRECTORY_TYPE else FILE_TYPE] + Repeat(NUL, 100) + MAGIC + VERSION
    + Repeat(NUL, 64) + ZERO8 + ZERO8 + prefixPart + Repeat(NUL, PREFIX_FIELD - |prefixPart|) + Repeat(NUL, 12)
  }

  /** `format!("{checksum:06o}")`. */
  function ChecksumDigits(checksum: nat): (digits: bytes) {
    var digits := Digits(checksum, 8);
    if |digits| >= 6 then digits else Repeat(ZERO, 6 - |digits|) + digits
  }

  function MakeTarHeader(name: bytes, directory: bool, size: nat, mode: nat): (r: Result<bytes, ArchiveError>)
    ensures r.Ok? ==> |r.value| == TAR_BLOCK
  {
    var (namePart, prefixPart) :- SplitName(name);
    var modeField :- OctalField(mode, 8);
    var sizeField :- OctalField(if directory then 0 else size, 12);
    var front := Front(namePart, modeField, sizeField);
    var back := Back(prefixPart, directory);
    var digits := ChecksumDigits(Sum(front + Repeat(SPACE, 8) + back));
    if |digits| != 6 then Err(ChecksumOverflow)
    else Ok(front + (digits + [NUL, SPACE]) + back)
  }

  // ---------------------------------------------------------------------------------------------
  // Reading
  // ---------------------------------------------------------------------------------------------

  predicate NumberEnd(b: byte) {
    b == NUL || b == SPACE
  }

  /** The bytes before the first NUL or space. */
  function NumberText(field: bytes): (s: bytes) {
    if field == [] || NumberEnd(field[0]) then [] else [field[0]] + NumberText(field[1..])
  }

  function ParseOctal(field: bytes): (r: Result<nat, ArchiveError>) {
    var trimmed := NumberText(field);
    if trimmed == [] || !AllDigits(trimmed, 8) then Err(InvalidNumber)
    else
      var value := Value(trimmed, 8);
      if value >= U64_LIMIT then Err(OverflowingNumber) else Ok(value)
  }

  function FieldText(field: bytes): (r: Result<bytes, ArchiveError>) {
    var end := IndexOf(field, NUL);
    if !AllZero(field[end..]) then Err(DataAfterTerminator)
    else if !Utf8.Valid(field[..end]) then Err(NonUtf8Path)
    else Ok(field[..end])
  }

  /** Free of what the verifier rejects inside a path whatever its structure: backslashes and control characters. */
  predicate CleanText(name: bytes) {
    BACKSLASH !in name && NUL !in name && !Utf8.HasControl(name)
  }

  function StripSlash(name: bytes): bytes {
    if name != [] && name[|name| - 1] == SLASH then name[..|name| - 1] else name
  }

  function SafeArchiveName(name: bytes): (r: Result<bytes, ArchiveError>) {
    if name == [] || !CleanText(name) || |name| > PATH_LIMIT then Err(InvalidPath)
    else
      var normalized := StripSlash(name);
      var parts := Components(normalized);
      if StartsWithSlash(normalized) || normalized == [] || !AllPlain(parts) || parts[0] != ROOT then Err(UnsafePath)
      else if Join(parts) != normalized then Err(PathOutsideRoot)
      else Ok(normalized)
  }

  function ArchiveMemberName(header: bytes, directory: bool): (r: Result<bytes, ArchiveError>)
    requires |header| == TAR_BLOCK
  {
    var name :- FieldText(header[..100]);
    var prefix :- FieldText(header[345..500]);
    if prefix != [] && name == [] then Err(InvalidUstarPath)
    else
      var value := if prefix == [] then name else prefix + [SLASH] + name;
      SafeArchiveName(if directory && !EndsWithSlash(value) then value + [SLASH] else value)
  }

  /** The header's byte sum with the checksum field read as spaces. */
  function Checksum(header: bytes): nat
    requires |header| == TAR_BLOCK
  {
    Sum(header[..148] + Repeat(SPACE, 8) + header[156..])
  }

  /** Checksum, magic, version and type: the result says whether the member is a directory. */
  function CheckKind(header: bytes): (r: Result<bool, ArchiveError>)
    requires |header| == TAR_BLOCK
  {
    var stored :- ParseOctal(header[148..156]);
    if stored != Checksum(header) || header[257..263] != MAGIC || header[263..265] != VERSION then Err(InvalidHeader)
    else
      var directory := header[156] == DIRECTORY_TYPE;
      if !directory && header[156] != 0 && header[156] != FILE_TYPE then Err(UnsupportedType) else Ok(directory)
  }

  /** `strip_prefix("release/")`, keeping the name when it has no such prefix. */
  function Relative(name: bytes): bytes {
    if ROOT_SLASH <= name then name[|ROOT_SLASH|..] else name
  }

  predicate AllowedDirectory(name: bytes) {
    var relative := if ROOT_SLASH <= name then name[|ROOT_SLASH|..] else [];
    name == ROOT || relative == STATIC || STATIC_SLASH <= relative
  }

  predicate AllowedFile(name: bytes) {
    || name == ROOT
    || Relative(name) in RELEASE_BINARIES
    || name == ROOT_SLASH + SOURCE_COMMIT
    || name == ROOT_SLASH + MANIFEST
    || (ROOT_SLASH + STATIC_SLASH <= name && name != ROOT_SLASH + STATIC_SLASH)
  }

  /** Mode, ownership, unused fields and size, in the order in which they are refused. */
  function CheckNumbers(header: bytes, directory: bool): (r: Result<(nat, nat), ArchiveError>)
    requires |header| == TAR_BLOCK
    ensures r.Ok? ==> r.value.1 <= FILE_LIMIT && (directory ==> r.value.1 == 0)
  {
    var parsedMode :- ParseOctal(header[100..108]);
    var mode := parsedMode % 0x1_0000_0000;
    if (mode / 0x200) % 8 != 0 then Err(UnsafeMode)
    else
      var uid :- ParseOctal(header[108..116]);
      var gid :- ParseOctal(header[116..124]);
      if uid != 0 || gid != 0 then Err(UnexpectedOwner)
      else if !AllZero(header[157..257]) || !AllZero(header[265..329]) then Err(UnsupportedMetadata)
      else
        var major :- ParseOctal(header[329..337]);
        if major != 0 then Err(UnsupportedMetadata)
        else
          var minor :- ParseOctal(header[337..345]);
          if minor != 0 then Err(UnsupportedMetadata)
          else
            var size :- ParseOctal(header[124..136]);
            if size > FILE_LIMIT || (directory && size != 0) then Err(FileTooLarge)
            else Ok((mode, size))
  }

  /** Any of the three execute bits. */
  predicate Executable(mode: nat) {
    mode % 2 == 1 || (mode / 8) % 2 == 1 || (mode / 64) % 2 == 1
  }

  function CheckPlace(name: bytes, directory: bool, mode: nat, types: map<bytes, bool>): (r: Outcome<ArchiveError>) {
    if !directory && Relative(name) in RELEASE_BINARIES && !Executable(mode) then Fail(BinaryNotExecutable)
    else if !directory && Relative(name) !in RELEASE_BINARIES && Executable(mode) then Fail(FileExecutable)
    else if name == ROOT && !directory then Fail(RootNotDirectory)
    else if Parent(name).Some? && Parent(name).value in types && !types[Parent(name).value] then Fail(FileAsParent)
    else if !directory && exists previous :: previous in types.Keys && Above(name, previous) then
      Fail(FileConflictsWithDirectory)
    else Pass
  }

  /** The part of the check that precedes recording the name. */
  function CheckName(header: bytes): (r: Result<(bool, bytes), ArchiveError>)
    requires |header| == TAR_BLOCK
  {
    var directory :- CheckKind(header);
    var name :- ArchiveMemberName(header, directory);
    Ok((directory, name))
  }

  /** `check_tar_header` against the names and kinds seen so far. */
  function CheckTarHeader(header: bytes, seen: set<bytes>, types: map<bytes, bool>): (r: Result<TarEntry, ArchiveError>)
    requires |header| == TAR_BLOCK
  {
    var (directory, name) :- CheckName(header);
    if name in seen then Err(DuplicatePath)
    else if directory && !AllowedDirectory(name) then Err(UnexpectedPath)
    else if !directory && !AllowedFile(name) then Err(UnexpectedPath)
    else
      var (mode, size) :- CheckNumbers(header, directory);
      :- CheckPlace(name, directory, mode, types);
      Ok(TarEntry(name, directory, size, mode))
  }
}
