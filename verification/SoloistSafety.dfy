/** What holds of every Soloist stream: the budget, the number of headers, and what success means. */
module SoloistSafety {
  import opened Wrappers
  import opened Bytes
  import opened ByteReaders
  import opened Soloist
  import opened SoloistListing
  import opened TarBlocks
  import Pax

  ghost predicate MemberSane(src: Stream, m: Member) {
    && m.start % HEADER == 0 && m.start >= HEADER
    && m.start + m.size <= |src.data|
    && (IsExecutable(m.name) || IsDocumentation(m.name))
    && (IsExecutable(m.name) ==> m.size > 0)
    && m.size <= MaximumFor(m.name)
  }

  ghost predicate MembersSane(src: Stream, members: seq<Member>) {
    && (forall i :: 0 <= i < |members| ==> MemberSane(src, members[i]))
    && (forall i, j :: 0 <= i < j < |members| ==> members[i].name != members[j].name)
    && (forall i, j :: 0 <= i < j < |members| ==> members[i].start + members[i].size <= members[j].start - HEADER)
  }

  /** The executable among the members, if any, is what has been extracted; there is never a second one. */
  ghost predicate ExtractedIs(src: Stream, members: seq<Member>, extracted: Option<bytes>) {
    && (extracted.None? <==> forall i :: 0 <= i < |members| ==> !IsExecutable(members[i].name))
    && (forall i, j :: 0 <= i < j < |members| ==> !IsExecutable(members[i].name) || !IsExecutable(members[j].name))
    && (forall i :: 0 <= i < |members| && IsExecutable(members[i].name) ==>
          && members[i].start + members[i].size <= |src.data|
          && extracted == Some(src.data[members[i].start..members[i].start + members[i].size]))
  }

  /** What every loop head satisfies. */
  ghost predicate Inv(src: Stream, budget: nat, occupied: bool, s: Unpack) {
    && s.pos % HEADER == 0 && s.pos <= |src.data| && s.pos <= budget
    && |s.members| <= 3
    && s.headers <= 2 * |s.members| + (if s.pending.Some? then 1 else 0)
    && (forall i :: 0 <= i < |s.members| ==> s.members[i].start + s.members[i].size <= s.pos)
    && MembersSane(src, s.members)
    && ExtractedIs(src, s.members, s.extracted)
    && (s.extracted.Some? ==> !occupied)
  }

  lemma StartInv(src: Stream, budget: nat, occupied: bool)
    ensures Inv(src, budget, occupied, START)
  {
  }

  /** An admitted member keeps the members sane. */
  lemma AdmitSane(src: Stream, s: Unpack, name: bytes, size: nat)
    requires MembersSane(src, s.members) && Admit(s, name, size).Pass?
    requires s.pos % HEADER == 0 && s.pos >= HEADER && s.pos + size <= |src.data|
    requires forall i :: 0 <= i < |s.members| ==> s.members[i].start + s.members[i].size <= s.pos - HEADER
    ensures MembersSane(src, s.members + [Member(name, s.pos, size)])
  {
    hide IsExecutable, IsDocumentation, MaximumFor;
    var members := s.members + [Member(name, s.pos, size)];
    assert members[|s.members|] == Member(name, s.pos, size);
    assert forall i :: 0 <= i < |s.members| ==> members[i] == s.members[i];
    assert forall i :: 0 <= i < |s.members| ==> s.members[i].name in Names(s.members);
  }

  /** ... and extracts at most one executable. */
  lemma AdmitExtracted(src: Stream, s: Unpack, name: bytes, size: nat)
    requires ExtractedIs(src, s.members, s.extracted) && Admit(s, name, size).Pass? && s.pos + size <= |src.data|
    ensures ExtractedIs(src, s.members + [Member(name, s.pos, size)],
                        if IsExecutable(name) then Some(src.data[s.pos..s.pos + size]) else s.extracted)
  {
    hide IsExecutable, IsDocumentation, MaximumFor, Names;
    var members := s.members + [Member(name, s.pos, size)];
    assert members[|s.members|] == Member(name, s.pos, size);
    assert forall i :: 0 <= i < |s.members| ==> members[i] == s.members[i];
  }

  lemma MetadataKeeps(src: Stream, budget: nat, occupied: bool, s: Unpack, rawSize: nat, next: Unpack)
    requires s.pos + HEADER <= |src.data| && s.pos + HEADER <= budget
    requires MetadataStep(src, budget, s.(pos := s.pos + HEADER, headers := s.headers + 1), rawSize) == Ok(next)
    requires Inv(src, budget, occupied, s)
    ensures Inv(src, budget, occupied, next)
  {
    hide MembersSane, ExtractedIs, MetadataStep, Padding;
    Aligned(s.pos, rawSize);
    MetadataMoves(src, budget, s.(pos := s.pos + HEADER, headers := s.headers + 1), rawSize);
  }

  /** Metadata moves the position by whole blocks and changes nothing but what is pending. */
  lemma MetadataMoves(src: Stream, budget: nat, s: Unpack, rawSize: nat)
    requires s.pos <= budget && s.pos <= |src.data| && MetadataStep(src, budget, s, rawSize).Ok?
    ensures var r := MetadataStep(src, budget, s, rawSize).value;
            && s.pending.None? && r.pending.Some? && r == s.(pos := r.pos, pending := r.pending)
            && r.pos == s.pos + rawSize + Padding(rawSize)
  {
    hide Pax.ParsePax, PassExact, Padding;
  }

  lemma MemberKeeps(
      src: Stream, budget: nat, occupied: bool, s: Unpack, header: bytes, rawSize: nat, next: Unpack)
    requires s.pos + HEADER <= |src.data| && s.pos + HEADER <= budget && |header| == HEADER
    requires var t := s.(pos := s.pos + HEADER, headers := s.headers + 1);
             MemberStep(src, budget, occupied, t, header, rawSize) == Ok(next)
    requires Inv(src, budget, occupied, s)
    ensures Inv(src, budget, occupied, next)
  {
    hide MembersSane, ExtractedIs, MemberStep, Admit, IsExecutable, Padding;
    var t := s.(pos := s.pos + HEADER, headers := s.headers + 1);
    var name, size := MemberStepIs(src, budget, occupied, t, header, rawSize);
    AdmitSane(src, t, name, size);
    AdmitExtracted(src, t, name, size);
    MemberBounds(s.members, Member(name, t.pos, size), s.pos, t.pos + size + Padding(size));
    Aligned(s.pos, size);
  }

  lemma Aligned(pos: nat, size: nat)
    requires pos % HEADER == 0
    ensures (pos + HEADER) % HEADER == 0 && (pos + HEADER + size + Padding(size)) % HEADER == 0
  {
  }

  /** What an accepted regular member does to the state. */
  lemma MemberStepIs(src: Stream, budget: nat, occupied: bool, t: Unpack, header: bytes, rawSize: nat)
    returns (name: bytes, size: nat)
    requires |header| == HEADER && t.pos <= budget && t.pos <= |src.data|
    requires MemberStep(src, budget, occupied, t, header, rawSize).Ok?
    ensures |t.members| <= 2 && Admit(t, name, size).Pass? && (IsExecutable(name) ==> !occupied)
    ensures t.pos + size + Padding(size) <= |src.data| && t.pos + size + Padding(size) <= budget
    ensures MemberStep(src, budget, occupied, t, header, rawSize).value ==
            Unpack(t.pos + size + Padding(size), t.headers, t.members + [Member(name, t.pos, size)], None,
                   if IsExecutable(name) then Some(src.data[t.pos..t.pos + size]) else t.extracted)
  {
    hide PassExact, Effective, Admit, IsExecutable;
    var effective := Effective(header, rawSize, t.pending).value;
    name, size := effective.0, effective.1;
  }

  lemma MemberBounds(members: seq<Member>, m: Member, pos: nat, next: nat)
    requires forall i :: 0 <= i < |members| ==> members[i].start + members[i].size <= pos
    requires pos <= m.start && m.start + m.size <= next
    ensures forall i :: 0 <= i < |members + [m]| ==> (members + [m])[i].start + (members + [m])[i].size <= next
  {
  }

  lemma StepKeeps(src: Stream, budget: nat, occupied: bool, s: Unpack)
    requires Inv(src, budget, occupied, s)
    requires NextStep(src, budget, occupied, s).Ok? && NextStep(src, budget, occupied, s).value.Some?
    ensures var t := NextStep(src, budget, occupied, s).value.value;
            Inv(src, budget, occupied, t) && t.headers == s.headers + 1
  {
    hide Inv, MetadataStep, MemberStep, ParseOctal, CheckChecksum;
    var header := ReadHeader(src, budget, s.pos).value.value;
    var rawSize := ParseOctal(header[124..136]).value;
    var next := NextStep(src, budget, occupied, s).value.value;
    if header[156] == 0x78 {
      MetadataKeeps(src, budget, occupied, s, rawSize, next);
      MetadataCounts(src, budget, s.(pos := s.pos + HEADER, headers := s.headers + 1), rawSize);
    } else {
      MemberKeeps(src, budget, occupied, s, header, rawSize, next);
      MemberCounts(src, budget, occupied, s.(pos := s.pos + HEADER, headers := s.headers + 1), header, rawSize);
    }
  }

  lemma MetadataCounts(src: Stream, budget: nat, s: Unpack, rawSize: nat)
    requires s.pos <= budget && s.pos <= |src.data| && MetadataStep(src, budget, s, rawSize).Ok?
    ensures MetadataStep(src, budget, s, rawSize).value.headers == s.headers
  {
    hide Pax.ParsePax;
  }

  lemma MemberCounts(src: Stream, budget: nat, occupied: bool, s: Unpack, header: bytes, rawSize: nat)
    requires |header| == HEADER && s.pos <= budget && s.pos <= |src.data|
             && MemberStep(src, budget, occupied, s, header, rawSize).Ok?
    ensures MemberStep(src, budget, occupied, s, header, rawSize).value.headers == s.headers
  {
    hide Effective, Admit;
  }

  /** The state at the head of turn `k`. */
  ghost function Head(src: Stream, budget: nat, occupied: bool, k: nat): (r: Option<Unpack>)
    ensures r.Some? ==> r.value.pos <= |src.data|
  {
    if k == 0 then Some(START)
    else
      var before := Head(src, budget, occupied, k - 1);
      if before.None? then None
      else
        var step := NextStep(src, budget, occupied, before.value);
        if step.Ok? && step.value.Some? then step.value else None
  }

  /**
   On every stream each header starts at a multiple of 512 within the budget, and the loop makes at most seven
   turns, so at most eight header blocks are ever read.
   */
  lemma {:induction false} HeadsBounded(src: Stream, budget: nat, occupied: bool, k: nat)
    requires Head(src, budget, occupied, k).Some?
    ensures Inv(src, budget, occupied, Head(src, budget, occupied, k).value)
    ensures Head(src, budget, occupied, k).value.headers == k <= 7
  {
    hide NextStep, MembersSane, ExtractedIs;
    if k == 0 {
      StartInv(src, budget, occupied);
    } else {
      HeadsBounded(src, budget, occupied, k - 1);
      StepKeeps(src, budget, occupied, Head(src, budget, occupied, k - 1).value);
    }
  }

  lemma {:induction false} UnpackKeeps(src: Stream, budget: nat, occupied: bool, s: Unpack)
    requires Inv(src, budget, occupied, s) && UnpackFrom(src, budget, occupied, s).Ok?
    ensures Inv(src, budget, occupied, UnpackFrom(src, budget, occupied, s).value.(headers := 0))
    ensures UnpackFrom(src, budget, occupied, s).value.headers <= 7
    decreases |src.data| - s.pos
  {
    hide MembersSane, ExtractedIs;
    var step := NextStep(src, budget, occupied, s).value;
    if step.Some? {
      StepKeeps(src, budget, occupied, s);
      hide NextStep;
      UnpackKeeps(src, budget, occupied, step.value);
    }
  }

  /**
   Success means: nothing stood at the destination, the stream is undamaged and within the limit, and the members
   that the loop admitted stand in it from its first block to an end marker, each where its own header and metadata
   say. They are distinct, and exactly one of them is the executable, whose bytes are the result.
   */
  lemma ExtractSound(src: Stream, limit: nat, occupied: bool) returns (members: seq<Member>, main: nat)
    requires Extract(src, limit, occupied).Ok?
    ensures !occupied && !src.damaged && |src.data| <= limit
    ensures var run := UnpackFrom(src, limit + 1, occupied, START); run.Ok? && members == run.value.members
    ensures Lists(src, members) && ZerosAt(src, EndOf(members)) && MembersSane(src, members) && Proper(members, main)
    ensures Extract(src, limit, occupied) == Ok(ContentOf(src, members[main]))
  {
    hide UnpackFrom, Lists, ZerosAt, EndOf;
    StartInv(src, limit + 1, occupied);
    UnpackKeeps(src, limit + 1, occupied, START);
    StartRead(src);
    LoopReads(src, limit + 1, occupied, START);
    var end := UnpackFrom(src, limit + 1, occupied, START).value;
    members := end.members;
    main := MainMember(src, end);
  }

  lemma StartRead(src: Stream)
    ensures Read(src, START)
  {
  }

  lemma MainMember(src: Stream, s: Unpack) returns (main: nat)
    requires MembersSane(src, s.members) && ExtractedIs(src, s.members, s.extracted) && |s.members| <= 3
    requires s.extracted.Some?
    ensures Proper(s.members, main) && MemberSane(src, s.members[main])
    ensures s.extracted == Some(ContentOf(src, s.members[main]))
  {
    hide IsExecutable, IsDocumentation, MaximumFor;
    main :| 0 <= main < |s.members| && IsExecutable(s.members[main].name);
    assert MemberSane(src, s.members[main]);
    assert |ALLOWED_DOCUMENTATION| == 2;
  }
}
