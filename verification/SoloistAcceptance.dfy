/** The archives that are accepted: one executable and its documentation, in any order, within the limit. */
module SoloistAcceptance {
  import opened Wrappers
  import opened Bytes
  import opened Numerals
  import opened ByteReaders
  import opened Soloist
  import opened SoloistHeaders
  import opened SoloistListing
  import opened Sequences
  import opened TarBlocks
  import Pax
  import SoloistSafety
  import Ustar
  import UstarRoundTrip

  // ---------------------------------------------------------------------------------------------
  // Numbers
  // ---------------------------------------------------------------------------------------------

  lemma {:induction false} SameDigits(field: bytes)
    ensures UntilBlank(field) == Ustar.NumberText(field)
  {
    if field != [] {
      SameDigits(field[1..]);
    }
  }

  /** Whatever the release verifier reads from a numeric field, the Soloist reader reads too. */
  lemma ParsersAgree(field: bytes)
    requires Ustar.ParseOctal(field).Ok?
    ensures ParseOctal(field) == Ok(Ustar.ParseOctal(field).value)
  {
    SameDigits(field);
    var digits := UntilBlank(field);
    assert digits[0] == field[0];
    assert SkipBlanks(field) == field;
    FoldIsValue([], digits);
    assert [] + digits == digits;
  }

  // ---------------------------------------------------------------------------------------------
  // Exactly when a stream is accepted
  // ---------------------------------------------------------------------------------------------

  /** The stream lists permitted members up to an end marker, and this is the executable. */
  ghost predicate Carries(src: Stream, content: bytes) {
    exists members, main :: IsListed(src, members, main) && content == ContentOf(src, members[main])
  }

  ghost predicate IsListed(src: Stream, members: seq<Member>, main: nat) {
    && Lists(src, members) && ZerosAt(src, EndOf(members)) && Proper(members, main)
    && main < |members| && members[main].start + members[main].size <= |src.data|
  }

  /**
   Extraction gives some bytes exactly when nothing stands at the destination, the stream is undamaged and within
   the limit, and it carries an executable with those bytes.
   */
  lemma ExtractIff(src: Stream, limit: nat, occupied: bool, content: bytes)
    ensures Extract(src, limit, occupied) == Ok(content)
       <==> !occupied && !src.damaged && |src.data| <= limit && Carries(src, content)
  {
    hide Lists, ZerosAt, Proper, UnpackFrom, EndOf;
    if Extract(src, limit, occupied) == Ok(content) {
      var members, main := SoloistSafety.ExtractSound(src, limit, occupied);
      MainInside(src, members, main);
      assert IsListed(src, members, main);
    }
    if !occupied && !src.damaged && |src.data| <= limit && Carries(src, content) {
      var members, main :| IsListed(src, members, main) && content == ContentOf(src, members[main]);
      ListedExtracts(src, limit, members, main);
    }
  }

  lemma MainInside(src: Stream, members: seq<Member>, main: nat)
    requires Lists(src, members) && Proper(members, main)
    ensures main < |members| && members[main].start + members[main].size <= |src.data|
  {
    hide Lists, MemberAt, IsExecutable, IsDocumentation;
    ListsAt(src, members, main);
  }

  lemma ListedExtracts(src: Stream, limit: nat, members: seq<Member>, main: nat)
    requires IsListed(src, members, main) && !src.damaged && |src.data| <= limit
    ensures Extract(src, limit, false) == Ok(ContentOf(src, members[main]))
  {
    hide UnpackFrom, Lists, ZerosAt, Proper;
    assert members[..0] == [];
    LoopTakes(src, limit + 1, START, members, main, 0);
  }

  // ---------------------------------------------------------------------------------------------
  // One member as it is written
  // ---------------------------------------------------------------------------------------------

  /** A member with the name and size in its header, and the records of the extended metadata before it, if any. */
  datatype Entry = Entry(headerName: bytes, headerSize: nat, records: Option<seq<Pax.Record>>, content: bytes)

  const PRIVATE_MODE := 0x1C0 // 0o700
  const METADATA_NAME: bytes := Text("PaxHeader")
  const SIZE_LIMIT := 0x2_0000_0000

  predicate HeaderFits(name: bytes, size: nat) {
    1 <= |name| <= Ustar.NAME_FIELD && NUL !in name && size < SIZE_LIMIT
  }

  lemma FieldsFit(size: nat)
    requires size < SIZE_LIMIT
    ensures Ustar.OctalField(PRIVATE_MODE, 8).Ok? && Ustar.OctalField(size, 12).Ok?
    ensures Ustar.ParseOctal(Ustar.OctalField(size, 12).value) == Ok(size)
  {
    hide Ustar.OctalField, Ustar.ParseOctal;
    PowersOfEight();
    UstarRoundTrip.OctalFieldRoundTrip(PRIVATE_MODE, 8);
    UstarRoundTrip.OctalFieldRoundTrip(size, 12);
  }

  function BackOf(kind: byte): (back: bytes)
    ensures |back| == 356
  {
    [kind] + Ustar.Back([], false)[1..]
  }

  /** A header of any type. */
  function TarHeader(kind: byte, name: bytes, size: nat): (header: bytes)
    requires HeaderFits(name, size)
    ensures |header| == HEADER
  {
    FieldsFit(size);
    var front := Ustar.Front(name, Ustar.OctalField(PRIVATE_MODE, 8).value, Ustar.OctalField(size, 12).value);
    var back := BackOf(kind);
    UstarRoundTrip.ChecksumFits(front, back);
    front + (Ustar.ChecksumDigits(Sum(front + Repeat(SPACE, 8) + back)) + [NUL, SPACE]) + back
  }

  /** A written header passes the checksum and yields its type, path and size. */
  lemma HeaderRead(kind: byte, name: bytes, size: nat)
    requires HeaderFits(name, size) && kind != NUL
    ensures var h := TarHeader(kind, name, size);
            && CheckChecksum(h) == Pass && ParseOctal(h[124..136]) == Ok(size)
            && h[156] == kind && TarPath(h) == Ok(name) && !AllZero(h)
  {
    hide Ustar.ParseOctal, Ustar.OctalField, ParseOctal, Ustar.ChecksumDigits;
    FieldsFit(size);
    var mode, number := Ustar.OctalField(PRIVATE_MODE, 8).value, Ustar.OctalField(size, 12).value;
    var front, back := Ustar.Front(name, mode, number), BackOf(kind);
    UstarRoundTrip.ChecksumFits(front, back);
    var check := Ustar.ChecksumDigits(Sum(front + Repeat(SPACE, 8) + back)) + [NUL, SPACE];
    UstarRoundTrip.FrontFields(name, mode, number);
    UstarRoundTrip.HeaderHalves(front, check, back);
    PrefixEmpty(kind);
    hide Ustar.Front, BackOf;
    var h := TarHeader(kind, name, size);
    assert h == front + check + back;
    ParsersAgree(check);
    ParsersAgree(number);
    IndexOfIs(h[..100], NUL, |name|);
    IndexOfIs(h[345..500], NUL, 0);
    assert UntilNul(h[..100]) == name;
  }

  lemma PrefixEmpty(kind: byte)
    ensures BackOf(kind)[0] == kind && BackOf(kind)[189..344] == Repeat(NUL, 155)
  {
    UstarRoundTrip.BackFields([], false);
    assert BackOf(kind)[189..344] == Ustar.Back([], false)[189..344];
  }

  // ---------------------------------------------------------------------------------------------
  // Members with their metadata
  // ---------------------------------------------------------------------------------------------

  function Padded(content: bytes): bytes {
    content + Repeat(NUL, Padding(|content|))
  }

  predicate MetadataFits(records: seq<Pax.Record>) {
    Pax.Fresh(records, map[]) && |Pax.EncodeAll(records)| <= MAX_METADATA_BYTES
  }

  function MetadataBytes(records: Option<seq<Pax.Record>>): bytes
    requires records.Some? ==> MetadataFits(records.value)
  {
    if records.None? then []
    else
      var payload := Pax.EncodeAll(records.value);
      MetadataNamed();
      TarHeader(METADATA, METADATA_NAME, |payload|) + Padded(payload)
  }

  lemma MetadataNamed()
    ensures |METADATA_NAME| == 9 && NUL !in METADATA_NAME
  {
    assert forall i :: 0 <= i < 9 ==> METADATA_NAME[i] >= 0x41;
  }

  function Extensions(e: Entry): Option<Pax.Extensions> {
    if e.records.None? then None else Some(Pax.Meaning(e.records.value, map[]))
  }

  /** The name that counts: the metadata's, if it has one. */
  function NameOf(e: Entry): bytes {
    if Extensions(e).Some? && Pax.PATH in Extensions(e).value then Extensions(e).value[Pax.PATH] else e.headerName
  }

  /** The size that counts is the size there is. */
  predicate SizeStated(e: Entry) {
    if Extensions(e).Some? && Pax.SIZE in Extensions(e).value
    then Pax.ParseUnsigned(Extensions(e).value[Pax.SIZE]) == Some(|e.content|)
    else e.headerSize == |e.content|
  }

  predicate Legal(e: Entry) {
    && HeaderFits(e.headerName, e.headerSize) && (e.records.Some? ==> MetadataFits(e.records.value)) && SizeStated(e)
    && (IsExecutable(NameOf(e)) || IsDocumentation(NameOf(e)))
    && (IsExecutable(NameOf(e)) ==> e.content != [])
    && |e.content| <= MaximumFor(NameOf(e))
  }

  function MemberBytes(e: Entry): bytes
    requires Legal(e)
  {
    MetadataBytes(e.records) + TarHeader(REGULAR, e.headerName, e.headerSize) + Padded(e.content)
  }

  function MemberOf(at: nat, e: Entry): Member
    requires Legal(e)
  {
    Member(NameOf(e), at + |MetadataBytes(e.records)| + HEADER, |e.content|)
  }

  lemma PaxParses(records: seq<Pax.Record>)
    requires Pax.Fresh(records, map[])
    ensures Pax.ParsePax(Pax.EncodeAll(records)) == Ok(Pax.Meaning(records, map[]))
  {
    Pax.ParseEncoded([], records, map[]);
    assert [] + Pax.EncodeAll(records) == Pax.EncodeAll(records);
  }

  /** A header and its padded content, wherever they stand. */
  lemma PartsStand(src: Stream, before: bytes, header: bytes, content: bytes, after: bytes)
    requires src.data == before + (header + Padded(content)) + after && |header| == HEADER
    ensures BlockAt(src, |before|) && Block(src, |before|) == header
    ensures After(|before|, |content|) == |before| + |header + Padded(content)| <= |src.data|
    ensures src.data[|before| + HEADER..|before| + HEADER + |content|] == content
  {
    var zeros := Repeat(NUL, Padding(|content|));
    assert src.data == before + header + content + (zeros + after);
  }

  lemma MetadataStands(src: Stream, before: bytes, records: seq<Pax.Record>, after: bytes)
    requires MetadataFits(records) && src.data == before + MetadataBytes(Some(records)) + after
    ensures MetadataAt(src, |before|) && MetadataOf(src, |before|) == Pax.Meaning(records, map[])
    ensures After(|before|, StatedSize(src, |before|)) == |before| + |MetadataBytes(Some(records))|
  {
    hide TarHeader, CheckChecksum, ParseOctal, Pax.ParsePax, Pax.EncodeAll, Pax.Meaning, Pax.Fresh, Padded, Block,
         AllZero;
    var payload := Pax.EncodeAll(records);
    MetadataNamed();
    HeaderRead(METADATA, METADATA_NAME, |payload|);
    ChecksumIff(TarHeader(METADATA, METADATA_NAME, |payload|));
    hide ByteSum;
    PartsStand(src, before, TarHeader(METADATA, METADATA_NAME, |payload|), payload, after);
    PaxParses(records);
  }

  lemma RegularStands(src: Stream, before: bytes, e: Entry, after: bytes)
    requires Legal(e)
    requires src.data == before + (TarHeader(REGULAR, e.headerName, e.headerSize) + Padded(e.content)) + after
    ensures RegularAt(src, |before|, Extensions(e), Member(NameOf(e), |before| + HEADER, |e.content|))
    ensures src.data[|before| + HEADER..|before| + HEADER + |e.content|] == e.content
  {
    hide TarHeader, CheckChecksum, ParseOctal, TarPath, Padded, Block, AllZero, IsExecutable, IsDocumentation,
         MetadataFits;
    HeaderRead(REGULAR, e.headerName, e.headerSize);
    ChecksumIff(TarHeader(REGULAR, e.headerName, e.headerSize));
    hide ByteSum;
    PartsStand(src, before, TarHeader(REGULAR, e.headerName, e.headerSize), e.content, after);
    EffectiveIff(TarHeader(REGULAR, e.headerName, e.headerSize), e.headerSize, Extensions(e), NameOf(e), |e.content|);
    hide Overridden;
  }

  /** A written member stands where it was written, with its metadata. */
  lemma MemberStands(src: Stream, before: bytes, e: Entry, after: bytes)
    requires Legal(e) && src.data == before + MemberBytes(e) + after
    ensures MemberAt(src, |before|, MemberOf(|before|, e))
    ensures var m := MemberOf(|before|, e);
            && m.start + m.size + Padding(m.size) == |before + MemberBytes(e)|
            && m.start + m.size <= |src.data| && ContentOf(src, m) == e.content
  {
    hide TarHeader, RegularAt, MetadataAt, NameOf, IsExecutable, IsDocumentation, SizeStated, MetadataFits,
         HeaderAt, StatedSize, MetadataOf, HeaderFits, MaximumFor, Pax.Meaning;
    var metadata := MetadataBytes(e.records);
    var own := TarHeader(REGULAR, e.headerName, e.headerSize) + Padded(e.content);
    hide MetadataBytes, Padded, Padding;
    assert MemberBytes(e) == metadata + own;
    FourParts(before, metadata, own, after);
    RegularStands(src, before + metadata, e, after);
    if e.records.Some? {
      MetadataStands(src, before, e.records.value, own + after);
    } else {
      NoMetadata(e);
      RegularIsNotMetadata(src, |before|, MemberOf(|before|, e));
    }
    OwnLength(e);
  }

  lemma FourParts(a: bytes, b: bytes, c: bytes, d: bytes)
    ensures a + (b + c) + d == a + b + c + d == a + b + (c + d)
  {
  }

  lemma NoMetadata(e: Entry)
    requires e.records.None?
    ensures MetadataBytes(e.records) == []
  {
  }

  lemma OwnLength(e: Entry)
    requires Legal(e)
    ensures |MemberBytes(e)| == |MetadataBytes(e.records)| + HEADER + |e.content| + Padding(|e.content|)
  {
    hide TarHeader, IsExecutable, IsDocumentation, SizeStated, MetadataFits;
  }

  lemma RegularIsNotMetadata(src: Stream, at: nat, m: Member)
    requires RegularAt(src, at, None, m)
    ensures !MetadataAt(src, at)
  {
    hide HeaderAt, Overridden, Pax.ParsePax;
  }

  // ---------------------------------------------------------------------------------------------
  // Whole archives
  // ---------------------------------------------------------------------------------------------

  predicate AllLegal(es: seq<Entry>) {
    forall i :: 0 <= i < |es| ==> Legal(es[i])
  }

  function AllMembers(es: seq<Entry>): bytes
    requires AllLegal(es)
  {
    if es == [] then [] else AllMembers(es[..|es| - 1]) + MemberBytes(es[|es| - 1])
  }

  /** Members and an end marker of two zero blocks. */
  function Archive(es: seq<Entry>): bytes
    requires AllLegal(es)
  {
    AllMembers(es) + Repeat(NUL, 2 * HEADER)
  }

  function Placed(es: seq<Entry>): (members: seq<Member>)
    requires AllLegal(es)
    ensures |members| == |es|
  {
    if es == [] then []
    else
      var before := es[..|es| - 1];
      Placed(before) + [MemberOf(|AllMembers(before)|, es[|es| - 1])]
  }

  /** Legal members with different names, exactly one of them the executable at `main`. */
  predicate ProperEntries(es: seq<Entry>, main: nat) {
    && main < |es| <= 1 + |ALLOWED_DOCUMENTATION| && AllLegal(es)
    && (forall i :: 0 <= i < |es| ==> (IsExecutable(NameOf(es[i])) <==> i == main))
    && (forall i, j :: 0 <= i < j < |es| ==> NameOf(es[i]) != NameOf(es[j]))
  }

  /** A member has the name, the size and the content of its entry. */
  predicate Stands(src: Stream, e: Entry, m: Member) {
    && m.name == NameOf(e) && m.size == |e.content|
    && m.start + m.size <= |src.data| && ContentOf(src, m) == e.content
  }

  lemma {:induction false} ArchiveLists(src: Stream, es: seq<Entry>, after: bytes)
    requires AllLegal(es) && src.data == AllMembers(es) + after
    ensures Lists(src, Placed(es)) && EndOf(Placed(es)) == |AllMembers(es)|
    ensures forall i :: 0 <= i < |es| ==> Stands(src, es[i], Placed(es)[i])
  {
    hide Legal, MemberBytes, MemberAt, Stands, Lists;
    if es == [] {
      NothingListed(src);
    } else {
      var before, last := es[..|es| - 1], es[|es| - 1];
      Regroup(AllMembers(before), MemberBytes(last), after);
      ArchiveLists(src, before, MemberBytes(last) + after);
      LastStands(src, AllMembers(before), last, after);
      hide AllMembers;
      ListsMore(src, Placed(before), MemberOf(|AllMembers(before)|, last));
    }
  }

  lemma NothingListed(src: Stream)
    ensures Lists(src, [])
  {
  }

  lemma LastStands(src: Stream, before: bytes, e: Entry, after: bytes)
    requires Legal(e) && src.data == before + MemberBytes(e) + after
    ensures var m := MemberOf(|before|, e);
            && MemberAt(src, |before|, m) && Stands(src, e, m)
            && m.start + m.size + Padding(m.size) == |before + MemberBytes(e)|
  {
    hide Legal, MemberBytes, MemberAt, NameOf, ContentOf;
    MemberStands(src, before, e, after);
  }

  lemma PlacedProper(src: Stream, es: seq<Entry>, main: nat)
    requires ProperEntries(es, main)
    requires forall i :: 0 <= i < |es| ==> Placed(es)[i].name == NameOf(es[i]) && Placed(es)[i].size == |es[i].content|
    ensures Proper(Placed(es), main)
  {
    hide NameOf, IsExecutable, IsDocumentation, MaximumFor, HeaderFits, MetadataFits, SizeStated, Placed;
    forall i | 0 <= i < |es|
      ensures Placed(es)[i].size <= MaximumFor(Placed(es)[i].name) && (i == main || IsDocumentation(Placed(es)[i].name))
    {
      assert Legal(es[i]);
    }
    assert Legal(es[main]);
  }

  /**
   An archive of one executable and its documentation, in any order and with or without extended metadata that
   overrides their names and sizes, extracts exactly when its length is within the limit, and then to the executable.
   */
  lemma ProperArchiveExtracts(es: seq<Entry>, main: nat, limit: nat)
    requires ProperEntries(es, main)
    ensures var r := Extract(Stream(Archive(es), false), limit, false);
            && (r.Ok? <==> |Archive(es)| <= limit)
            && (r.Ok? ==> r == Ok(es[main].content))
  {
    hide Extract, Legal, AllMembers, Lists, Proper, Placed, NameOf, IsExecutable;
    var src := Stream(Archive(es), false);
    var members := Placed(es);
    ArchiveLists(src, es, Repeat(NUL, 2 * HEADER));
    PlacedProper(src, es, main);
    EndStands(src, AllMembers(es));
    assert IsListed(src, members, main);
    hide IsListed;
    assert Carries(src, es[main].content);
    ExtractIff(src, limit, false, es[main].content);
    var r := Extract(src, limit, false);
    if r.Ok? {
      ExtractIff(src, limit, false, r.value);
    }
  }

  lemma EndStands(src: Stream, members: bytes)
    requires src.data == members + Repeat(NUL, 2 * HEADER)
    ensures ZerosAt(src, |members|)
  {
  }
}
