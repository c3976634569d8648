/** What the extracting pass accepts when the archive file may have changed since its entries were listed. */
module ReleaseSecondPass {
  import opened Wrappers
  import opened Bytes
  import opened Ustar
  import opened ReleaseArchive
  import opened ByteReaders
  import opened TarBlocks
  import opened ReleaseTwoPass
  import opened ReleaseHeaders
  import opened ReleaseAcceptance

  /** Where the second pass is after some entries. */
  ghost function ReadTo(before: seq<TarEntry>, disk: Disk): Extraction {
    Extraction(StoredSize(before), After(before).seen, After(before).types, disk)
  }

  /** A member is extracted exactly when it stands where the listed ones before it end, and the disk can take it. */
  lemma MemberExtractedIff(src: Stream, before: seq<TarEntry>, e: TarEntry, disk: Disk, next: Extraction)
    requires StoredSize(before) <= |src.data| && Distinct(before)
    ensures ExtractMember(src, ReadTo(before, disk), e) == Ok(next) <==>
              && StandsAfter(src, before, e)
              && var placed := Place(disk, e, ContentAt(src, StoredSize(before), e));
                 placed.Ok? && next == ReadTo(before + [e], placed.value)
  {
    hide CheckTarHeader, HeaderShows, Joins, FreePlace, After, StoredSize, CreateDirAll, CreateParent, CreateNew,
         ModeFor, Relative;
    var at := StoredSize(before);
    StoredMore(before, e);
    JoinsIff(before, e);
    if at + TAR_BLOCK <= |src.data| {
      var h := src.data[at..at + TAR_BLOCK];
      HeaderIff(h, After(before).seen, After(before).types, e);
      if HeaderShows(h, e) {
        ShownSize(h, e);
        ShownRoot(h, e);
      }
    }
  }

  lemma ShownRoot(h: bytes, e: TarEntry)
    requires |h| == TAR_BLOCK && HeaderShows(h, e)
    ensures e.name == ROOT ==> e.directory
  {
    hide NameShown, Shows, KindShown, NumbersShown;
    assert ROOT == Text("release");
    assert |ROOT| < |BELOW_ROOT|;
  }

  /** The listed members are extracted exactly when they all stand, one after the other, and the disk can take them. */
  lemma {:induction false} MembersExtractedIff(src: Stream, before: seq<TarEntry>, rest: seq<TarEntry>, disk: Disk,
      end: Extraction)
    requires StoredSize(before) <= |src.data| && Members(src, before)
    ensures ExtractMembers(src, ReadTo(before, disk), rest) == Ok(end) <==>
              && Members(src, before + rest)
              && var placed := PlaceAll(src, StoredSize(before), disk, rest);
                 placed.Ok? && end == ReadTo(before + rest, placed.value)
    decreases |rest|
  {
    hide ExtractMember, Members, StandsAfter, StoredSize, Place, Padding;
    if rest == [] {
      assert before + rest == before;
    } else {
      var e, at := rest[0], StoredSize(before);
      MembersDistinct(src, before);
      FirstOfRest(src, before, rest);
      if StandsAfter(src, before, e) && Place(disk, e, ContentAt(src, at, e)).Ok? {
        var placed := Place(disk, e, ContentAt(src, at, e)).value;
        MemberExtractedIff(src, before, e, disk, ReadTo(before + [e], placed));
        MembersMore(src, before, e);
        StoredMore(before, e);
        assert (before + [e]) + rest[1..] == before + rest;
        MembersExtractedIff(src, before + [e], rest[1..], placed, end);
      } else {
        forall next ensures ExtractMember(src, ReadTo(before, disk), e) != Ok(next) {
          MemberExtractedIff(src, before, e, disk, next);
        }
      }
    }
  }

  lemma FirstOfRest(src: Stream, before: seq<TarEntry>, rest: seq<TarEntry>)
    requires rest != []
    ensures Members(src, before + rest) ==> StandsAfter(src, before, rest[0])
    ensures StandsAfter(src, before, rest[0]) ==>
              HasContent(src, StoredSize(before), rest[0]) && StoredSize(before + [rest[0]]) <= |src.data|
  {
    hide HeaderShows, Joins;
    var all := before + rest;
    assert all[..|before|] == before && all[|before|] == rest[0];
    StoredMore(before, rest[0]);
    hide StoredSize;
  }

  /** After the members: two blocks of zeros or more, and with more of them at most a gibibyte from the first on. */
  ghost predicate EndWithinLimit(src: Stream, es: seq<TarEntry>) {
    ZerosAfter(src, es) &&
    (|src.data| > StoredSize(es) + 1024 ==> |src.data| - StoredSize(es) <= 0x4000_0000)
  }

  lemma EndConsumedIff(src: Stream, es: seq<TarEntry>)
    requires StoredSize(es) <= |src.data|
    ensures ConsumeArchiveEnd(src, StoredSize(es)).Pass? <==> !src.damaged && EndWithinLimit(src, es)
  {
    assert AllZero([]);
    hide StoredSize, AllZero;
    var at := StoredSize(es);
    if at + 2 * TAR_BLOCK <= |src.data| {
      ZerosInThree(src.data, at);
    }
  }

  /**
   The second pass extracts a stream, whatever the first one read, exactly when the stream is undamaged, the listed
   members stand in it one after the other with nothing but zeros behind them, and the disk can take them.
   */
  lemma SecondPassIff(src: Stream, es: seq<TarEntry>, disk: Disk)
    ensures SecondPass(src, es) == Ok(disk) <==>
              && !src.damaged && Members(src, es) && EndWithinLimit(src, es)
              && PlaceAll(src, 0, map[ROOT := Folder], es) == Ok(disk)
  {
    StartsAtNothing();
    hide ExtractMembers, ConsumeArchiveEnd, Members, PlaceAll, EndWithinLimit, StoredSize, After;
    assert [] + es == es;
    if ExtractMembers(src, EXTRACTION_START, es).Ok? {
      var end := ExtractMembers(src, EXTRACTION_START, es).value;
      MembersExtractedIff(src, [], es, EXTRACTION_START.disk, end);
      EndConsumedIff(src, es);
    }
    if Members(src, es) && PlaceAll(src, 0, EXTRACTION_START.disk, es).Ok? {
      var placed := PlaceAll(src, 0, EXTRACTION_START.disk, es).value;
      MembersExtractedIff(src, [], es, EXTRACTION_START.disk, ReadTo(es, placed));
      EndConsumedIff(src, es);
    }
  }

  lemma StartsAtNothing()
    ensures ReadTo([], EXTRACTION_START.disk) == EXTRACTION_START && StoredSize([]) == 0
    ensures forall src: Stream :: Members(src, [])
  {
  }

  /**
   A file that changed between the passes is extracted only if it still holds the listed members, and then, unless it
   is longer than a gibibyte, it would have been accepted and extracted like this in the first place.
   */
  lemma ChangedArchive(first: Stream, second: Stream)
    requires ExtractReopened(first, second).Ok?
    ensures var es := FirstPass(first).value;
            FirstPass(first).Ok? && !second.damaged && Members(second, es) && EndWithinLimit(second, es)
    ensures |second.data| <= 0x4000_0000 ==>
              FirstPass(second) == FirstPass(first) && ExtractArchive(second) == ExtractReopened(first, second)
  {
    hide FirstPass, SecondPass, Members, ZerosAfter, Complete, StoredSize;
    var es := FirstPass(first).value;
    SecondPassIff(second, es, ExtractReopened(first, second).value);
    FirstPassIff(first, es);
    FirstPassIff(second, es);
  }
}
