/**
 The bounded extraction of one executable from a Soloist archive: a byte budget over the decompressed stream,
 member headers, pending extended metadata, and the drain of what follows the archive.
 */
module Soloist {
  import opened Wrappers
  import opened Bytes
  import opened Numerals
  import opened ByteReaders
  import opened TarBlocks
  import Pax

  const MAX_SOLOIST_BYTES := 512 * 1024 * 1024
  const MAX_DOCUMENTATION_BYTES := 1024 * 1024
  const MAX_METADATA_BYTES := 1024 * 1024
  const HEADER := BLOCK
  const COPY_BUFFER := 64 * 1024
  const DRAIN_BUFFER := 1024 * 1024

  const EXECUTABLE_NAMES: seq<bytes> := [Text("soloist"), Text("./soloist")]
  const ALLOWED_DOCUMENTATION: seq<bytes> := [Text("CHANGELOG.md"), Text("THIRD_PARTY_LICENSES.txt")]

  datatype SoloistError =
    | OverBudget
    | Truncated
    | NoEndMarker
    | OrphanedMetadata
    | UnsupportedNumber
    | InvalidNumber
    | NumberOverflow
    | BadChecksum
    | RepeatedMetadata
    | BadMetadata(cause: Pax.PaxError)
    | GlobalMetadata
    | UnexpectedType
    | MemberCount
    | EmptyPath
    | BadExtendedSize
    | UnexpectedMember
    | BadMemberSize
    | NotOneExecutable
    | CannotCreate

  // ---------------------------------------------------------------------------------------------
  // Header fields
  // ---------------------------------------------------------------------------------------------

  predicate Blank(b: byte) {
    b == NUL || b == SPACE
  }

  function SkipBlanks(field: bytes): bytes {
    if field != [] && Blank(field[0]) then SkipBlanks(field[1..]) else field
  }

  function UntilBlank(field: bytes): bytes {
    if field == [] || Blank(field[0]) then [] else [field[0]] + UntilBlank(field[1..])
  }

  /** The fold over digits, with its checked multiplication and addition. */
  function FoldOctal(digits: bytes, value: nat): Result<nat, SoloistError>
    decreases |digits|
  {
    if digits == [] then Ok(value)
    else if !IsDigit(digits[0], 8) then Err(InvalidNumber)
    else
      var next := value * 8 + (digits[0] - ZERO);
      if next >= U64_LIMIT then Err(NumberOverflow) else FoldOctal(digits[1..], next)
  }

  function ParseOctal(field: bytes): Result<nat, SoloistError> {
    if field != [] && field[0] >= 0x80 then Err(UnsupportedNumber)
    else FoldOctal(UntilBlank(SkipBlanks(field)), 0)
  }

  function CheckChecksum(header: bytes): Outcome<SoloistError>
    requires |header| == HEADER
  {
    var expected := ParseOctal(header[148..156]);
    if expected.Err? then Fail(expected.error)
    else if Sum(header[..148] + Repeat(SPACE, 8) + header[156..]) != expected.value then Fail(BadChecksum)
    else Pass
  }

  function UntilNul(field: bytes): bytes {
    field[..IndexOf(field, NUL)]
  }

  function TarPath(header: bytes): Result<bytes, SoloistError>
    requires |header| == HEADER
  {
    var name, prefix := UntilNul(header[..100]), UntilNul(header[345..500]);
    if name == [] then Err(EmptyPath)
    else if prefix == [] then Ok(name)
    else Ok(prefix + [SLASH] + name)
  }

  // ---------------------------------------------------------------------------------------------
  // The budgeted reader
  // ---------------------------------------------------------------------------------------------

  /** Reading `count` bytes at `pos` under a budget: the position afterwards. */
  function ReadExact(src: Stream, budget: nat, pos: nat, count: nat): (r: Result<nat, SoloistError>)
    ensures r.Ok? ==> r.value == pos + count && r.value <= budget && r.value <= |src.data|
  {
    if pos + count > budget then Err(OverBudget)
    else if pos + count > |src.data| then Err(Truncated)
    else Ok(pos + count)
  }

  /** Skipping or copying in buffers of 64 KiB. */
  function PassExact(src: Stream, budget: nat, pos: nat, count: nat): (r: Result<nat, SoloistError>)
    requires pos <= budget && pos <= |src.data|
    ensures r.Ok? <==> pos + count <= budget && pos + count <= |src.data|
    ensures r.Ok? ==> r.value == pos + count
    decreases count
  {
    if count == 0 then Ok(pos)
    else
      var piece := if count < COPY_BUFFER then count else COPY_BUFFER;
      var next :- ReadExact(src, budget, pos, piece);
      PassExact(src, budget, next, count - piece)
  }

  /** A header, or nothing at the end of the stream. */
  function ReadHeader(src: Stream, budget: nat, pos: nat): (r: Result<Option<bytes>, SoloistError>)
    requires pos <= |src.data|
    ensures r.Ok? && r.value.Some? ==>
              && pos + HEADER <= budget && pos + HEADER <= |src.data|
              && r.value.value == src.data[pos..pos + HEADER]
  {
    if pos >= budget then Err(OverBudget)
    else if pos == |src.data| then if src.damaged then Err(Truncated) else Ok(None)
    else
      var end :- ReadExact(src, budget, pos + 1, HEADER - 1);
      Ok(Some(src.data[pos..end]))
  }

  // ---------------------------------------------------------------------------------------------
  // The member loop
  // ---------------------------------------------------------------------------------------------

  /** An accepted member: its name, and where its bytes lie. */
  datatype Member = Member(name: bytes, start: nat, size: nat)

  /** The loop state; `headers` counts the header blocks read. */
  datatype Unpack = Unpack(
    pos: nat,
    headers: nat,
    members: seq<Member>,
    pending: Option<Pax.Extensions>,
    extracted: Option<bytes>)

  const START: Unpack := Unpack(0, 0, [], None, None)

  predicate IsExecutable(name: bytes) {
    name in EXECUTABLE_NAMES
  }

  predicate IsDocumentation(name: bytes) {
    name in ALLOWED_DOCUMENTATION
  }

  function Names(members: seq<Member>): set<bytes> {
    set i | 0 <= i < |members| :: members[i].name
  }

  /** The effective name and size of a member, given the metadata before it. */
  function Effective(header: bytes, rawSize: nat, pending: Option<Pax.Extensions>): Result<(bytes, nat), SoloistError>
    requires |header| == HEADER
  {
    var ownName :- TarPath(header);
    if pending.None? then Ok((ownName, rawSize))
    else
      var extensions := pending.value;
      var name := if Pax.PATH in extensions then extensions[Pax.PATH] else ownName;
      if Pax.SIZE in extensions then
        match Pax.ParseUnsigned(extensions[Pax.SIZE])
        case None => Err(BadExtendedSize)
        case Some(size) => Ok((name, size))
      else Ok((name, rawSize))
  }

  function MaximumFor(name: bytes): nat {
    if IsExecutable(name) then MAX_SOLOIST_BYTES else MAX_DOCUMENTATION_BYTES
  }

  /** Names, duplicates, sizes and the single executable. */
  function Admit(s: Unpack, name: bytes, size: nat): Outcome<SoloistError> {
    if (!IsExecutable(name) && !IsDocumentation(name)) || name in Names(s.members) then Fail(UnexpectedMember)
    else if (IsExecutable(name) && size == 0) || size > MaximumFor(name) then Fail(BadMemberSize)
    else if IsExecutable(name) && s.extracted.Some? then Fail(NotOneExecutable)
    else Pass
  }

  /** An extended-metadata member: `s.pos` is after its header. */
  function MetadataStep(src: Stream, budget: nat, s: Unpack, rawSize: nat): (r: Result<Unpack, SoloistError>)
    requires s.pos <= budget && s.pos <= |src.data|
    ensures r.Ok? ==> s.pos <= r.value.pos <= budget && r.value.pos <= |src.data|
  {
    if s.pending.Some? || rawSize > MAX_METADATA_BYTES then Err(RepeatedMetadata)
    else
      var after :- ReadExact(src, budget, s.pos, rawSize);
      var next :- PassExact(src, budget, after, Padding(rawSize));
      match Pax.ParsePax(src.data[s.pos..after])
      case Err(cause) => Err(BadMetadata(cause))
      case Ok(extensions) => Ok(s.(pos := next, pending := Some(extensions)))
  }

  /** A regular member: `s.pos` is after its header. */
  function MemberStep(src: Stream, budget: nat, occupied: bool, s: Unpack, header: bytes, rawSize: nat)
    : (r: Result<Unpack, SoloistError>)
    requires |header| == HEADER && s.pos <= budget && s.pos <= |src.data|
    ensures r.Ok? ==> s.pos <= r.value.pos <= budget && r.value.pos <= |src.data|
  {
    if |s.members| + 1 > 1 + |ALLOWED_DOCUMENTATION| then Err(MemberCount)
    else
      var (name, size) :- Effective(header, rawSize, s.pending);
      :- Admit(s, name, size);
      if IsExecutable(name) && occupied then Err(CannotCreate)
      else
        var after :- PassExact(src, budget, s.pos, size);
        var next :- PassExact(src, budget, after, Padding(size));
        Ok(Unpack(next, s.headers, s.members + [Member(name, s.pos, size)], None,
                  if IsExecutable(name) then Some(src.data[s.pos..after]) else s.extracted))
  }

  /** One turn of the loop: the next state, or nothing at the end marker. */
  function NextStep(src: Stream, budget: nat, occupied: bool, s: Unpack): (r: Result<Option<Unpack>, SoloistError>)
    requires s.pos <= |src.data|
    ensures r.Ok? && r.value.Some? ==> s.pos < r.value.value.pos <= |src.data| && r.value.value.pos <= budget
  {
    var block :- ReadHeader(src, budget, s.pos);
    if block.None? then Err(NoEndMarker)
    else
      var header := block.value;
      if forall i :: 0 <= i < |header| ==> header[i] == NUL then
        if s.pending.Some? then Err(OrphanedMetadata) else Ok(None)
      else
        :- CheckChecksum(header);
        var rawSize :- ParseOctal(header[124..136]);
        var t := s.(pos := s.pos + HEADER, headers := s.headers + 1);
        if header[156] == 0x78 then
          var next :- MetadataStep(src, budget, t, rawSize);
          Ok(Some(next))
        else if header[156] == 0x67 then Err(GlobalMetadata)
        else if header[156] != 0x30 && header[156] != 0 then Err(UnexpectedType)
        else
          var next :- MemberStep(src, budget, occupied, t, header, rawSize);
          Ok(Some(next))
  }

  /** The loop from a state to the end marker, whose one block is consumed. */
  function UnpackFrom(src: Stream, budget: nat, occupied: bool, s: Unpack): (r: Result<Unpack, SoloistError>)
    requires s.pos <= |src.data|
    ensures r.Ok? ==> r.value.pos <= budget && r.value.pos <= |src.data|
    decreases |src.data| - s.pos
  {
    var step :- NextStep(src, budget, occupied, s);
    match step
    case Some(next) => UnpackFrom(src, budget, occupied, next)
    case None => Ok(s.(pos := s.pos + HEADER, headers := s.headers + 1))
  }

  /** `drain_archive` from a position within the budget. */
  function Drain(src: Stream, limit: nat, pos: nat): Outcome<SoloistError>
    requires pos <= limit + 1 && pos <= |src.data|
  {
    if |src.data| > limit then Fail(OverBudget)
    else if src.damaged then Fail(Truncated)
    else Pass
  }

  /** `extract_with_limit`: the executable's bytes. */
  function Extract(src: Stream, limit: nat, occupied: bool): Result<bytes, SoloistError> {
    var end :- UnpackFrom(src, limit + 1, occupied, START);
    :- Need(end.extracted.Some?, NotOneExecutable);
    :- Drain(src, limit, end.pos);
    Ok(end.extracted.value)
  }
}
