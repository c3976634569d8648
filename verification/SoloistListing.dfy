/**
 What a Soloist stream says about itself: the members its headers name, one after the other, up to the end marker.
 Extraction succeeds exactly on the streams whose members are one executable and its documentation.
 */
module SoloistListing {
  import opened Wrappers
  import opened Bytes
  import opened ByteReaders
  import opened Soloist
  import opened SoloistHeaders
  import opened TarBlocks
  import Pax

  const REGULAR: byte := 0x30
  const OLD_REGULAR: byte := 0
  const METADATA: byte := 0x78

  // ---------------------------------------------------------------------------------------------
  // Headers where they stand
  // ---------------------------------------------------------------------------------------------

  predicate BlockAt(src: Stream, at: nat) {
    at + HEADER <= |src.data|
  }

  function Block(src: Stream, at: nat): (block: bytes)
    requires BlockAt(src, at)
    ensures |block| == HEADER
  {
    src.data[at..at + HEADER]
  }

  predicate ZerosAt(src: Stream, at: nat) {
    BlockAt(src, at) && AllZero(Block(src, at))
  }

  /** The sum of a header's bytes, with spaces for the eight of the checksum. */
  function ByteSum(block: bytes): nat
    requires |block| == HEADER
  {
    Sum(block[..148] + [0x20, 0x20, 0x20, 0x20, 0x20, 0x20, 0x20, 0x20] + block[156..])
  }

  lemma ChecksumIff(block: bytes)
    requires |block| == HEADER
    ensures CheckChecksum(block).Pass? <==> ShowsOctal(block[148..156], ByteSum(block))
  {
    hide ParseOctal, Sum, ShowsOctal;
    OctalIff(block[148..156], ByteSum(block));
    assert Repeat(SPACE, 8) == [0x20, 0x20, 0x20, 0x20, 0x20, 0x20, 0x20, 0x20];
  }

  /** A block that is not zero, with the sum of its bytes as its checksum, and a size. */
  ghost predicate HeaderAt(src: Stream, at: nat) {
    && BlockAt(src, at) && !AllZero(Block(src, at))
    && ShowsOctal(Block(src, at)[148..156], ByteSum(Block(src, at))) && ParseOctal(Block(src, at)[124..136]).Ok?
  }

  function Kind(src: Stream, at: nat): byte
    requires BlockAt(src, at)
  {
    Block(src, at)[156]
  }

  ghost function StatedSize(src: Stream, at: nat): nat
    requires HeaderAt(src, at)
  {
    ParseOctal(Block(src, at)[124..136]).value
  }

  /** Where the next header stands after this many bytes. */
  function After(at: nat, size: nat): nat {
    at + HEADER + size + Padding(size)
  }

  /** Extended metadata: its header, and records that parse. */
  ghost predicate MetadataAt(src: Stream, at: nat) {
    && HeaderAt(src, at) && Kind(src, at) == METADATA && StatedSize(src, at) <= 0x10_0000
    && After(at, StatedSize(src, at)) <= |src.data|
    && Pax.ParsePax(src.data[at + HEADER..at + HEADER + StatedSize(src, at)]).Ok?
  }

  ghost function MetadataOf(src: Stream, at: nat): Pax.Extensions
    requires MetadataAt(src, at)
  {
    Pax.ParsePax(src.data[at + HEADER..at + HEADER + StatedSize(src, at)]).value
  }

  /** A regular member: its header and the metadata before it give its name and size, and its bytes follow. */
  ghost predicate RegularAt(src: Stream, at: nat, metadata: Option<Pax.Extensions>, m: Member) {
    && HeaderAt(src, at) && (Kind(src, at) == REGULAR || Kind(src, at) == OLD_REGULAR)
    && Overridden(Block(src, at), StatedSize(src, at), metadata, m.name, m.size)
    && m.start == at + HEADER && After(at, m.size) <= |src.data|
  }

  /** A member with or without metadata before it. */
  ghost predicate MemberAt(src: Stream, at: nat, m: Member) {
    if MetadataAt(src, at) then RegularAt(src, After(at, StatedSize(src, at)), Some(MetadataOf(src, at)), m)
    else RegularAt(src, at, None, m)
  }

  function EndOf(members: seq<Member>): nat {
    if members == [] then 0
    else
      var last := members[|members| - 1];
      last.start + last.size + Padding(last.size)
  }

  /** The members stand one after the other from the start of the stream. */
  ghost predicate Lists(src: Stream, members: seq<Member>) {
    members == [] ||
    var before := members[..|members| - 1];
    Lists(src, before) && MemberAt(src, EndOf(before), members[|members| - 1])
  }

  /** Different permitted names with permitted sizes, exactly one of them the executable. */
  predicate Proper(members: seq<Member>, main: nat) {
    && main < |members| <= 1 + |ALLOWED_DOCUMENTATION|
    && (forall i :: 0 <= i < |members| ==>
          && (IsExecutable(members[i].name) <==> i == main)
          && (i == main || IsDocumentation(members[i].name))
          && members[i].size <= MaximumFor(members[i].name))
    && members[main].size > 0
    && (forall i, j :: 0 <= i < j < |members| ==> members[i].name != members[j].name)
  }

  /** The bytes of a member. */
  function ContentOf(src: Stream, m: Member): bytes
    requires m.start + m.size <= |src.data|
  {
    src.data[m.start..m.start + m.size]
  }

  lemma {:induction false} ListsAt(src: Stream, members: seq<Member>, k: nat)
    requires Lists(src, members) && k < |members|
    ensures Lists(src, members[..k]) && MemberAt(src, EndOf(members[..k]), members[k])
    ensures members[k].start + members[k].size <= EndOf(members[..k + 1]) <= |src.data|
    decreases |members|
  {
    hide MetadataAt, HeaderAt, Overridden, MemberAt;
    var before := members[..|members| - 1];
    if k < |before| {
      ListsAt(src, before, k);
      assert before[..k] == members[..k] && before[..k + 1] == members[..k + 1];
    } else {
      assert members[..k] == before && members[..k + 1] == members;
      MemberEnds(src, EndOf(before), members[k]);
    }
  }

  lemma MemberEnds(src: Stream, at: nat, m: Member)
    requires MemberAt(src, at, m)
    ensures m.start + m.size + Padding(m.size) <= |src.data|
  {
    hide MetadataAt, HeaderAt, Overridden;
  }

  // ---------------------------------------------------------------------------------------------
  // What the loop has read
  // ---------------------------------------------------------------------------------------------

  /** The loop stands after the members it has admitted, or after the metadata of the next one. */
  ghost predicate Read(src: Stream, s: Unpack) {
    && Lists(src, s.members)
    && match s.pending
       case None => s.pos == EndOf(s.members)
       case Some(metadata) =>
         var at := EndOf(s.members);
         MetadataAt(src, at) && s.pos == After(at, StatedSize(src, at)) && metadata == MetadataOf(src, at)
  }

  lemma MetadataRead(src: Stream, budget: nat, s: Unpack, next: Unpack)
    requires HeaderAt(src, s.pos) && Kind(src, s.pos) == METADATA && s.pos + HEADER <= budget
    requires var t := s.(pos := s.pos + HEADER, headers := s.headers + 1);
             MetadataStep(src, budget, t, StatedSize(src, s.pos)) == Ok(next)
    requires Read(src, s)
    ensures Read(src, next)
  {
    hide Pax.ParsePax, HeaderAt, Lists;
  }

  lemma MemberRead(src: Stream, budget: nat, occupied: bool, s: Unpack, next: Unpack)
    requires HeaderAt(src, s.pos) && s.pos + HEADER <= budget
    requires Kind(src, s.pos) == REGULAR || Kind(src, s.pos) == OLD_REGULAR
    requires var t := s.(pos := s.pos + HEADER, headers := s.headers + 1);
             MemberStep(src, budget, occupied, t, Block(src, s.pos), StatedSize(src, s.pos)) == Ok(next)
    requires Read(src, s)
    ensures Read(src, next)
  {
    hide HeaderAt, Kind, StatedSize, MemberStep, RegularAt, MetadataAt, MetadataOf, Lists, Block, Padding;
    var t := s.(pos := s.pos + HEADER, headers := s.headers + 1);
    var m := RegularRead(src, budget, occupied, t, s.pos);
    NotMetadata(src, s.pos);
    assert MemberAt(src, EndOf(s.members), m);
    hide MemberAt, After;
    ListsMore(src, s.members, m);
  }

  /** What one member adds: the member that stands at the header just read, and the position after it. */
  lemma RegularRead(src: Stream, budget: nat, occupied: bool, t: Unpack, at: nat) returns (m: Member)
    requires HeaderAt(src, at) && t.pos == at + HEADER && t.pos <= budget
    requires Kind(src, at) == REGULAR || Kind(src, at) == OLD_REGULAR
    requires MemberStep(src, budget, occupied, t, Block(src, at), StatedSize(src, at)).Ok?
    ensures RegularAt(src, at, t.pending, m)
    ensures var after := MemberStep(src, budget, occupied, t, Block(src, at), StatedSize(src, at)).value;
            && after.members == t.members + [m] && after.pending.None?
            && after.pos == m.start + m.size + Padding(m.size)
  {
    hide Effective, Overridden, Admit, IsExecutable, PassExact;
    var (name, size) := Effective(Block(src, at), StatedSize(src, at), t.pending).value;
    EffectiveIff(Block(src, at), StatedSize(src, at), t.pending, name, size);
    m := Member(name, t.pos, size);
    hide HeaderAt;
  }

  lemma NotMetadata(src: Stream, at: nat)
    requires HeaderAt(src, at) && (Kind(src, at) == REGULAR || Kind(src, at) == OLD_REGULAR)
    ensures !MetadataAt(src, at)
  {
    hide HeaderAt, Pax.ParsePax;
  }

  lemma ListsMore(src: Stream, members: seq<Member>, m: Member)
    requires Lists(src, members) && MemberAt(src, EndOf(members), m)
    ensures Lists(src, members + [m])
  {
    assert (members + [m])[..|members|] == members;
  }

  lemma StepReads(src: Stream, budget: nat, occupied: bool, s: Unpack)
    requires s.pos <= |src.data| && Read(src, s)
    requires NextStep(src, budget, occupied, s).Ok? && NextStep(src, budget, occupied, s).value.Some?
    ensures Read(src, NextStep(src, budget, occupied, s).value.value)
  {
    hide MetadataStep, MemberStep, ParseOctal, CheckChecksum, Read;
    var next := NextStep(src, budget, occupied, s).value.value;
    ChecksumIff(Block(src, s.pos));
    hide ByteSum;
    assert HeaderAt(src, s.pos);
    if Kind(src, s.pos) == METADATA {
      MetadataRead(src, budget, s, next);
    } else {
      MemberRead(src, budget, occupied, s, next);
    }
  }

  /** A loop that comes to its end has read the members that stand there, up to a block of zeros. */
  lemma {:induction false} LoopReads(src: Stream, budget: nat, occupied: bool, s: Unpack)
    requires s.pos <= |src.data| && Read(src, s) && UnpackFrom(src, budget, occupied, s).Ok?
    ensures var end := UnpackFrom(src, budget, occupied, s).value;
            Lists(src, end.members) && ZerosAt(src, EndOf(end.members))
    decreases |src.data| - s.pos
  {
    hide Lists, MetadataAt;
    var step := NextStep(src, budget, occupied, s).value;
    if step.Some? {
      StepReads(src, budget, occupied, s);
      hide NextStep;
      LoopReads(src, budget, occupied, step.value);
    } else {
      hide MetadataStep, MemberStep, CheckChecksum, ParseOctal;
    }
  }

  // ---------------------------------------------------------------------------------------------
  // What the loop will read
  // ---------------------------------------------------------------------------------------------

  /** What has been extracted once some of the members are read. */
  ghost predicate Extracted(src: Stream, members: seq<Member>, main: nat, k: nat, extracted: Option<bytes>) {
    && main < |members| && members[main].start + members[main].size <= |src.data|
    && extracted == if main < k then Some(ContentOf(src, members[main])) else None
  }

  /** The next member is admitted. */
  lemma AdmitsNext(src: Stream, s: Unpack, members: seq<Member>, main: nat, k: nat)
    requires Proper(members, main) && k < |members| && s.members == members[..k]
    requires Extracted(src, members, main, k, s.extracted)
    ensures Admit(s, members[k].name, members[k].size) == Pass
  {
    hide IsExecutable, IsDocumentation, MaximumFor;
    assert forall i :: 0 <= i < k ==> s.members[i] == members[i];
  }

  lemma TakesMember(src: Stream, budget: nat, s: Unpack, members: seq<Member>, main: nat, k: nat)
    requires Proper(members, main) && k < |members| && s.members == members[..k]
    requires Extracted(src, members, main, k, s.extracted)
    requires RegularAt(src, s.pos, s.pending, members[k]) && |src.data| < budget
    ensures var r := NextStep(src, budget, false, s);
            && r.Ok? && r.value.Some?
            && r.value.value.members == members[..k + 1] && r.value.value.pos == EndOf(members[..k + 1])
            && r.value.value.pending.None? && Extracted(src, members, main, k + 1, r.value.value.extracted)
  {
    hide CheckChecksum, ParseOctal, Effective, Overridden, Admit, PassExact, Proper, IsExecutable, ByteSum;
    ChecksumIff(Block(src, s.pos));
    var m := members[k];
    EffectiveIff(Block(src, s.pos), StatedSize(src, s.pos), s.pending, m.name, m.size);
    var t := s.(pos := s.pos + HEADER, headers := s.headers + 1);
    AdmitsNext(src, t, members, main, k);
    ExecutableIs(members, main, k);
    assert members[..k + 1] == members[..k] + [m];
    assert MemberStep(src, budget, false, t, Block(src, s.pos), StatedSize(src, s.pos)).Ok?;
  }

  lemma ExecutableIs(members: seq<Member>, main: nat, k: nat)
    requires Proper(members, main) && k < |members|
    ensures IsExecutable(members[k].name) <==> k == main
    ensures |members| <= 1 + |ALLOWED_DOCUMENTATION|
  {
  }

  lemma TakesMetadata(src: Stream, budget: nat, s: Unpack)
    requires MetadataAt(src, s.pos) && s.pending.None? && |src.data| < budget
    ensures var r := NextStep(src, budget, false, s);
            && r.Ok? && r.value.Some?
            && r.value.value == s.(pos := After(s.pos, StatedSize(src, s.pos)), headers := s.headers + 1,
                                   pending := Some(MetadataOf(src, s.pos)))
  {
    hide CheckChecksum, ParseOctal, Pax.ParsePax, PassExact, ByteSum;
    ChecksumIff(Block(src, s.pos));
  }

  lemma StopsAtZeros(src: Stream, budget: nat, s: Unpack)
    requires ZerosAt(src, s.pos) && s.pending.None? && |src.data| < budget
    ensures NextStep(src, budget, false, s) == Ok(None)
  {
    hide CheckChecksum, ParseOctal;
  }

  /** The loop reads all the members that stand in the stream. */
  lemma {:induction false} LoopTakes(src: Stream, budget: nat, s: Unpack, members: seq<Member>, main: nat, k: nat)
    requires Lists(src, members) && ZerosAt(src, EndOf(members)) && Proper(members, main) && |src.data| < budget
    requires k <= |members| && s.members == members[..k] && s.pos == EndOf(s.members) && s.pending.None?
    requires s.pos <= |src.data| && Extracted(src, members, main, k, s.extracted)
    ensures var r := UnpackFrom(src, budget, false, s);
            r.Ok? && r.value.members == members && r.value.extracted == Some(ContentOf(src, members[main]))
    decreases |members| - k
  {
    hide Lists, MetadataAt, RegularAt, ZerosAt, Proper, NextStep, EndOf;
    if k == |members| {
      assert members[..k] == members;
      assert main < k by {
        MainIsMember(members, main);
      }
      StopsAtZeros(src, budget, s);
    } else {
      ListsAt(src, members, k);
      var t := s;
      if MetadataAt(src, s.pos) {
        TakesMetadata(src, budget, s);
        t := NextStep(src, budget, false, s).value.value;
      }
      TakesMember(src, budget, t, members, main, k);
      LoopTakes(src, budget, NextStep(src, budget, false, t).value.value, members, main, k + 1);
    }
  }

  lemma MainIsMember(members: seq<Member>, main: nat)
    requires Proper(members, main)
    ensures main < |members|
  {
  }
}
