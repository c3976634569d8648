/** The extraction as it runs: a reader that counts against its budget, the member loop, and the drain. */
module SoloistTransfer {
  import opened Wrappers
  import opened Bytes
  import opened ByteReaders
  import opened Soloist
  import opened TarBlocks
  import Pax

  /** A reader with a budget. */
  class BoundedReader {
    const inner: Reader
    var bytesRead: nat
    const maximumBytes: nat

    constructor (inner: Reader, maximumBytes: nat)
      requires inner.Valid() && inner.pos == 0
      ensures Valid() && this.inner == inner && bytesRead == 0 && this.maximumBytes == maximumBytes
    {
      this.inner := inner;
      this.bytesRead := 0;
      this.maximumBytes := maximumBytes;
    }

    /** The count is the position, and never exceeds the budget. */
    ghost predicate Valid()
      reads this, inner
    {
      inner.Valid() && bytesRead == inner.pos <= maximumBytes
    }

    /** Fills a buffer of `count` bytes, or fails without touching the count. */
    method ReadExactly(count: nat) returns (r: Result<bytes, SoloistError>)
      requires Valid()
      modifies this, inner
      ensures match ReadExact(Source(inner), maximumBytes, old(bytesRead), count) {
                case Ok(next) => r == Ok(inner.data[old(bytesRead)..next]) && Valid() && bytesRead == next
                case Err(error) => r == Err(error) && bytesRead == old(bytesRead)
              }
    {
      if bytesRead + count > maximumBytes {
        return Err(OverBudget);
      }
      var buffer: bytes := [];
      ghost var start := inner.pos;
      while |buffer| < count
        invariant inner.Valid() && bytesRead == start && |buffer| <= count && inner.pos == start + |buffer|
        invariant buffer == inner.data[start..inner.pos]
        decreases count - |buffer|
      {
        var piece := inner.Read(count - |buffer|);
        if piece.Err? || piece.value == [] {
          return Err(Truncated);
        }
        buffer := buffer + piece.value;
      }
      bytesRead := bytesRead + count;
      return Ok(buffer);
    }

    /** A header block, or nothing at the end of the stream. */
    method NextHeader() returns (r: Result<Option<bytes>, SoloistError>)
      requires Valid()
      modifies this, inner
      ensures r == ReadHeader(Source(inner), maximumBytes, old(bytesRead))
      ensures r.Ok? ==> Valid() && bytesRead == old(bytesRead) + if r.value.Some? then HEADER else 0
    {
      if bytesRead >= maximumBytes {
        return Err(OverBudget);
      }
      var first := inner.Read(1);
      if first.Err? {
        return Err(Truncated);
      }
      if first.value == [] {
        return Ok(None);
      }
      bytesRead := bytesRead + 1;
      var rest := ReadExactly(HEADER - 1);
      if rest.Err? {
        return Err(rest.error);
      }
      assert first.value + rest.value == inner.data[old(bytesRead)..old(bytesRead) + HEADER];
      return Ok(Some(first.value + rest.value));
    }

    /** `copy_exact`: the next `size` bytes, in pieces of at most 64 KiB. */
    method CopyExactly(size: nat) returns (r: Result<bytes, SoloistError>)
      requires Valid()
      modifies this, inner
      ensures match PassExact(Source(inner), maximumBytes, old(bytesRead), size) {
                case Ok(next) => r == Ok(inner.data[old(bytesRead)..next]) && Valid() && bytesRead == next
                case Err(error) => r == Err(error)
              }
    {
      var output: bytes := [];
      var remaining := size;
      ghost var src, start := Source(inner), bytesRead;
      while remaining > 0
        invariant Valid() && 0 <= remaining <= size && bytesRead == start + size - remaining
        invariant output == inner.data[start..bytesRead]
        invariant PassExact(src, maximumBytes, start, size) == PassExact(src, maximumBytes, bytesRead, remaining)
      {
        var count := if remaining < COPY_BUFFER then remaining else COPY_BUFFER;
        var piece := ReadExactly(count);
        if piece.Err? {
          return Err(piece.error);
        }
        output := output + piece.value;
        remaining := remaining - count;
      }
      return Ok(output);
    }

    /** `skip_exact`. */
    method SkipExactly(size: nat) returns (r: Outcome<SoloistError>)
      requires Valid()
      modifies this, inner
      ensures match PassExact(Source(inner), maximumBytes, old(bytesRead), size) {
                case Ok(next) => r == Pass && Valid() && bytesRead == next
                case Err(error) => r == Fail(error)
              }
    {
      var remaining := size;
      ghost var src, start := Source(inner), bytesRead;
      while remaining > 0
        invariant Valid() && 0 <= remaining <= size
        invariant PassExact(src, maximumBytes, start, size) == PassExact(src, maximumBytes, bytesRead, remaining)
      {
        var count := if remaining < COPY_BUFFER then remaining else COPY_BUFFER;
        var piece := ReadExactly(count);
        if piece.Err? {
          return Fail(piece.error);
        }
        remaining := remaining - count;
      }
      return Pass;
    }
  }

  /** The destination path: the bytes of the file there, if there is one. */
  class Destination {
    var file: Option<bytes>

    constructor (file: Option<bytes>)
      ensures this.file == file
    {
      this.file := file;
    }
  }

  /** An extended-metadata member. */
  method ReadMetadata(reader: BoundedReader, pending: Option<Pax.Extensions>, rawSize: nat, ghost s: Unpack)
    returns (r: Result<Pax.Extensions, SoloistError>)
    requires reader.Valid() && s.pos == reader.bytesRead && s.pending == pending
    modifies reader, reader.inner
    ensures match MetadataStep(Source(reader.inner), reader.maximumBytes, s, rawSize) {
              case Ok(t) => r.Ok? && reader.Valid() && t == s.(pos := reader.bytesRead, pending := Some(r.value))
              case Err(error) => r == Err(error)
            }
  {
    hide Pax.ParsePax, PassExact;
    if pending.Some? || rawSize > MAX_METADATA_BYTES {
      return Err(RepeatedMetadata);
    }
    var payload := reader.ReadExactly(rawSize);
    if payload.Err? {
      return Err(payload.error);
    }
    var padding := reader.SkipExactly(Padding(rawSize));
    if padding.Fail? {
      return Err(padding.error);
    }
    var extensions := Pax.ReadPax(payload.value);
    return if extensions.Err? then Err(BadMetadata(extensions.error)) else Ok(extensions.value);
  }

  /** A regular member; a file is created for the executable before its bytes are copied. */
  method ReadMember(reader: BoundedReader, destination: Destination, header: bytes, rawSize: nat, ghost s: Unpack,
                    names: set<bytes>, members: nat, pending: Option<Pax.Extensions>, extracted: bool)
    returns (r: Result<Member, SoloistError>, created: bool)
    requires reader.Valid() && |header| == HEADER && s.pos == reader.bytesRead
    requires names == Names(s.members) && members == |s.members| && pending == s.pending
             && extracted == s.extracted.Some?
    requires extracted ==> destination.file.Some?
    modifies reader, reader.inner, destination
    ensures !created ==> destination.file == old(destination.file)
    ensures created ==> old(destination.file).None?
    ensures match MemberStep(Source(reader.inner), reader.maximumBytes, !extracted && old(destination.file).Some?,
                             s, header, rawSize) {
              case Ok(t) =>
                && r.Ok? && reader.Valid()
                && t == Unpack(reader.bytesRead, s.headers, s.members + [r.value], None,
                               if created then destination.file else s.extracted)
                && (created ==> destination.file.Some?)
              case Err(error) => r == Err(error)
            }
  {
    hide PassExact, IsExecutable, IsDocumentation, MaximumFor, Effective, Names;
    created := false;
    if members + 1 > 1 + |ALLOWED_DOCUMENTATION| {
      return Err(MemberCount), created;
    }
    var effective := Effective(header, rawSize, pending);
    if effective.Err? {
      return Err(effective.error), created;
    }
    var (name, size) := effective.value;
    var executable := IsExecutable(name);
    if (!executable && !IsDocumentation(name)) || name in names {
      return Err(UnexpectedMember), created;
    }
    if (executable && size == 0) || size > MaximumFor(name) {
      return Err(BadMemberSize), created;
    }
    var member := Member(name, reader.bytesRead, size);
    if executable {
      if extracted {
        return Err(NotOneExecutable), created;
      }
      if destination.file.Some? {
        return Err(CannotCreate), created;
      }
      destination.file := Some([]);
      created := true;
      var content := reader.CopyExactly(size);
      if content.Err? {
        return Err(content.error), created;
      }
      destination.file := Some(content.value);
    } else {
      var skipped := reader.SkipExactly(size);
      if skipped.Fail? {
        return Err(skipped.error), created;
      }
    }
    var padding := reader.SkipExactly(Padding(size));
    if padding.Fail? {
      return Err(padding.error), created;
    }
    return Ok(member), created;
  }

  /** `extract_tar`: `created` tells whether this call put a file at the destination. */
  method UnpackTar(reader: BoundedReader, destination: Destination) returns (r: Outcome<SoloistError>, created: bool)
    requires reader.Valid() && reader.bytesRead == 0
    modifies reader, reader.inner, destination
    ensures !created ==> destination.file == old(destination.file)
    ensures created ==> old(destination.file).None?
    ensures match UnpackFrom(Source(reader.inner), reader.maximumBytes, old(destination.file).Some?, START) {
              case Ok(end) =>
                if end.extracted.None? then r == Fail(NotOneExecutable)
                else
                  && r == Pass && created && destination.file == end.extracted
                  && reader.Valid() && reader.bytesRead == end.pos
              case Err(error) => r == Fail(error)
            }
  {
    hide MetadataStep, MemberStep, CheckChecksum, ParseOctal, ReadHeader;
    var names: set<bytes> := {};
    var members := 0;
    var extracted := false;
    var pending: Option<Pax.Extensions> := None;
    created := false;
    ghost var src, occupied := Source(reader.inner), destination.file.Some?;
    ghost var s := START;
    assert names == Names(s.members);
    while true
      invariant reader.Valid() && s.pos == reader.bytesRead
      invariant names == Names(s.members) && members == |s.members| && pending == s.pending
                && extracted == s.extracted.Some?
      invariant created == extracted && (created ==> !occupied && destination.file == s.extracted)
      invariant !created ==> destination.file == old(destination.file)
      invariant UnpackFrom(src, reader.maximumBytes, occupied, START) ==
                UnpackFrom(src, reader.maximumBytes, occupied, s)
      decreases |src.data| - s.pos
    {
      var block := reader.NextHeader();
      if block.Err? {
        return Fail(block.error), created;
      }
      if block.value.None? {
        return Fail(NoEndMarker), created;
      }
      var header := block.value.value;
      if forall i :: 0 <= i < |header| ==> header[i] == NUL {
        if pending.Some? {
          return Fail(OrphanedMetadata), created;
        }
        return if extracted then Pass else Fail(NotOneExecutable), created;
      }
      var checksum := CheckChecksum(header);
      if checksum.Fail? {
        return Fail(checksum.error), created;
      }
      var rawSize := ParseOctal(header[124..136]);
      if rawSize.Err? {
        return Fail(rawSize.error), created;
      }
      ghost var t := s.(pos := s.pos + HEADER, headers := s.headers + 1);
      if header[156] == 0x78 {
        var metadata := ReadMetadata(reader, pending, rawSize.value, t);
        if metadata.Err? {
          return Fail(metadata.error), created;
        }
        pending := Some(metadata.value);
        s := t.(pos := reader.bytesRead, pending := pending);
      } else if header[156] == 0x67 {
        return Fail(GlobalMetadata), created;
      } else if header[156] != 0x30 && header[156] != 0 {
        return Fail(UnexpectedType), created;
      } else {
        var member, made := ReadMember(reader, destination, header, rawSize.value, t, names, members, pending,
            extracted);
        created := created || made;
        if member.Err? {
          return Fail(member.error), created;
        }
        members := members + 1;
        pending := None;
        NamesMore(s.members, member.value);
        names := names + {member.value.name};
        extracted := extracted || made;
        s := Unpack(reader.bytesRead, t.headers, s.members + [member.value], None,
                    if made then destination.file else s.extracted);
      }
    }
  }

  lemma NamesMore(members: seq<Member>, m: Member)
    ensures Names(members + [m]) == Names(members) + {m.name}
  {
    var more := members + [m];
    assert more[|members|] == m;
    forall i | 0 <= i < |members| ensures members[i].name in Names(more) {
      assert more[i] == members[i];
    }
  }

  /** `drain_archive`: what is left may not exceed the limit; the subtraction never goes below zero. */
  method DrainArchive(reader: BoundedReader, limit: nat) returns (r: Outcome<SoloistError>)
    requires reader.Valid() && reader.maximumBytes == limit + 1
    modifies reader, reader.inner
    ensures r == Drain(Source(reader.inner), limit, old(reader.bytesRead))
  {
    while true
      invariant reader.inner.Valid() && reader.bytesRead == reader.inner.pos <= limit + 1
      invariant reader.bytesRead == limit + 1 ==> reader.bytesRead == old(reader.bytesRead)
      decreases |reader.inner.data| - reader.bytesRead
    {
      var remaining := limit + 1 - reader.bytesRead;
      assert remaining >= 0;
      var chunk := if remaining < DRAIN_BUFFER then remaining else DRAIN_BUFFER;
      var read := reader.inner.Read(chunk);
      if read.Err? {
        return Fail(Truncated);
      }
      if read.value == [] {
        break;
      }
      reader.bytesRead := reader.bytesRead + |read.value|;
      if reader.bytesRead > limit {
        return Fail(OverBudget);
      }
    }
    if reader.bytesRead > limit {
      return Fail(OverBudget);
    }
    return Pass;
  }

  /** `extract_with_limit`: on success the destination holds the executable; on failure it is as it was. */
  method ExtractWithLimit(data: bytes, damaged: bool, destination: Destination, limit: nat)
    returns (r: Outcome<SoloistError>)
    modifies destination
    ensures match Extract(Stream(data, damaged), limit, old(destination.file).Some?) {
              case Ok(content) => r == Pass && destination.file == Some(content)
              case Err(error) => r == Fail(error) && destination.file == old(destination.file)
            }
  {
    hide UnpackFrom;
    var inner := new Reader(data, damaged);
    var reader := new BoundedReader(inner, limit + 1);
    var created;
    r, created := UnpackTar(reader, destination);
    if r.Pass? {
      r := DrainArchive(reader, limit);
    }
    if r.Fail? && created {
      destination.file := None;
    }
  }
}
