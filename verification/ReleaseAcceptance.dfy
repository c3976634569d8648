/** Which streams the verifying pass accepts, and with which entries, read off the bytes alone. */
module ReleaseAcceptance {
  import opened Wrappers
  import opened Bytes
  import opened Numerals
  import opened Paths
  import opened Ustar
  import opened ReleaseInventory
  import opened ReleaseArchive
  import opened ByteReaders
  import opened TarBlocks
  import opened ReleaseTwoPass
  import opened ReleaseHeaders

  /** The entries before a member leave it its place: its name is new, and no file takes the place of a directory. */
  ghost predicate Joins(before: seq<TarEntry>, e: TarEntry) {
    && (forall i :: 0 <= i < |before| ==> before[i].name != e.name)
    && (forall i :: 0 <= i < |before| && !before[i].directory ==>
          !(before[i].name + [SLASH] <= e.name && SLASH !in e.name[|before[i].name| + 1..]))
    && (!e.directory ==> forall i :: 0 <= i < |before| ==> !(e.name + [SLASH] <= before[i].name))
  }

  /** A member right after those before it: its header, and room for its bytes. */
  ghost predicate StandsAfter(src: Stream, before: seq<TarEntry>, e: TarEntry) {
    var at := StoredSize(before);
    && at + 512 + e.size + Padding(e.size) <= |src.data|
    && HeaderShows(src.data[at..at + 512], e) && Joins(before, e)
  }

  ghost predicate Members(src: Stream, es: seq<TarEntry>) {
    forall i :: 0 <= i < |es| ==> StandsAfter(src, es[..i], es[i])
  }

  /** After the members, nothing but zeros: at least two blocks of them. */
  ghost predicate ZerosAfter(src: Stream, es: seq<TarEntry>) {
    var end := StoredSize(es);
    end + 1024 <= |src.data| && forall i :: end <= i < |src.data| ==> src.data[i] == 0
  }

  predicate HasFile(es: seq<TarEntry>, name: bytes) {
    exists i :: 0 <= i < |es| && es[i].name == name && !es[i].directory
  }

  /** The root, the binaries, the commit, the manifest, the page, and something among the assets. */
  predicate Complete(es: seq<TarEntry>) {
    && (exists i :: 0 <= i < |es| && es[i].name == Text("release") && es[i].directory)
    && HasFile(es, WEB) && HasFile(es, ENGINE) && HasFile(es, CLI) && HasFile(es, HELPER)
    && HasFile(es, COMMIT_FILE) && HasFile(es, MANIFEST_FILE) && HasFile(es, BELOW_STATIC + Text("index.html"))
    && (exists i :: 0 <= i < |es| && BELOW_STATIC + Text("assets/") <= es[i].name)
  }

  /** At most 20,000 members, at most a gibibyte up to the first zero block, and as much in all if zeros follow. */
  ghost predicate WithinLimits(src: Stream, es: seq<TarEntry>) {
    && |es| <= 20_000 && StoredSize(es) + 512 <= 0x4000_0000
    && (|src.data| > StoredSize(es) + 1024 ==> |src.data| <= 0x4000_0000)
  }

  // ---------------------------------------------------------------------------------------------
  // The loop state after some entries
  // ---------------------------------------------------------------------------------------------

  ghost function After(es: seq<TarEntry>): Scan {
    if es == [] then START
    else
      var s, e := After(es[..|es| - 1]), es[|es| - 1];
      var next := s.pos + TAR_BLOCK + e.size + Padding(e.size);
      Scan(next, next, es, s.seen + {e.name}, s.types[e.name := e.directory])
  }

  ghost predicate Distinct(es: seq<TarEntry>) {
    forall i, j :: 0 <= i < j < |es| ==> es[i].name != es[j].name
  }

  lemma {:induction false} AfterIs(es: seq<TarEntry>)
    ensures After(es).pos == After(es).expanded == StoredSize(es) && After(es).entries == es
    ensures After(es).types.Keys == After(es).seen
  {
    if es != [] {
      AfterIs(es[..|es| - 1]);
    }
  }

  lemma {:induction false} AfterSeen(es: seq<TarEntry>, p: bytes)
    ensures p in After(es).seen <==> exists i :: 0 <= i < |es| && es[i].name == p
  {
    hide StoredSize, Padding;
    if es != [] {
      var before, last := es[..|es| - 1], es[|es| - 1];
      AfterSeen(before, p);
      assert forall i :: 0 <= i < |before| ==> before[i] == es[i];
      assert es[|before|] == last;
    }
  }

  lemma {:induction false} AfterTypes(es: seq<TarEntry>, i: nat)
    requires Distinct(es) && i < |es|
    ensures es[i].name in After(es).types && After(es).types[es[i].name] == es[i].directory
  {
    hide StoredSize, Padding;
    var before := es[..|es| - 1];
    assert forall k :: 0 <= k < |before| ==> before[k] == es[k];
    if i < |before| {
      AfterTypes(before, i);
    }
  }

  lemma JoinsIff(before: seq<TarEntry>, e: TarEntry)
    requires Distinct(before)
    ensures Joins(before, e) <==> FreePlace(e.name, e.directory, After(before).seen, After(before).types)
  {
    hide After;
    AfterIs(before);
    var s := After(before);
    forall i | 0 <= i < |before|
      ensures before[i].name in s.types && s.types[before[i].name] == before[i].directory
    {
      AfterTypes(before, i);
    }
    forall p | p in s.seen ensures exists i :: 0 <= i < |before| && before[i].name == p {
      AfterSeen(before, p);
    }
    if Joins(before, e) {
      JoinedFree(before, e);
    }
  }

  lemma JoinedFree(before: seq<TarEntry>, e: TarEntry)
    requires Distinct(before) && Joins(before, e)
    ensures FreePlace(e.name, e.directory, After(before).seen, After(before).types)
  {
    hide After;
    AfterIs(before);
    var s := After(before);
    forall p | p in s.seen
      ensures exists i :: 0 <= i < |before| && before[i].name == p && s.types[p] == before[i].directory
    {
      AfterSeen(before, p);
      var i :| 0 <= i < |before| && before[i].name == p;
      AfterTypes(before, i);
    }
  }

  // ---------------------------------------------------------------------------------------------
  // One step of the loop
  // ---------------------------------------------------------------------------------------------

  lemma StoredMore(before: seq<TarEntry>, e: TarEntry)
    ensures StoredSize(before + [e]) == StoredSize(before) + TAR_BLOCK + e.size + Padding(e.size)
    ensures After(before + [e]) ==
            Scan(StoredSize(before + [e]), StoredSize(before + [e]), before + [e], After(before).seen + {e.name},
                 After(before).types[e.name := e.directory])
  {
    AfterIs(before);
    assert (before + [e])[..|before|] == before;
  }

  /** A header that shows an entry is no block of zeros. */
  lemma ShownNotZero(h: bytes, e: TarEntry)
    requires |h| == TAR_BLOCK && HeaderShows(h, e)
    ensures !AllZero(h)
  {
    hide NameShown, NumbersShown, Shows, OnList;
    assert h[257..263][0] == 0x75 == h[257];
  }

  lemma ShownSize(h: bytes, e: TarEntry)
    requires |h| == TAR_BLOCK && HeaderShows(h, e)
    ensures e.size <= FILE_LIMIT && (e.directory ==> e.size == 0)
  {
    hide NameShown, Shows, OnList, KindShown;
  }

  ghost predicate Counts(src: Stream, before: seq<TarEntry>) {
    StoredSize(before) <= |src.data| && StoredSize(before) <= EXPANDED_LIMIT && Distinct(before)
  }

  /** Where the loop takes a member, that member stands. */
  lemma TakenStands(src: Stream, before: seq<TarEntry>) returns (e: TarEntry)
    requires Counts(src, before) && After(before).pos <= |src.data|
    requires NextStep(src, After(before)).Ok? && NextStep(src, After(before)).value.Member?
    ensures NextStep(src, After(before)).value == Member(After(before + [e])) && StandsAfter(src, before, e)
    ensures |before| < ENTRY_LIMIT && StoredSize(before + [e]) <= EXPANDED_LIMIT
  {
    hide CheckTarHeader, HeaderShows, Joins, FreePlace, After, StoredSize, AllZero;
    var s := After(before);
    AfterIs(before);
    var h := src.data[s.pos..s.pos + TAR_BLOCK];
    e := CheckTarHeader(h, s.seen, s.types).value;
    StoredMore(before, e);
    JoinsIff(before, e);
    HeaderIff(h, s.seen, s.types, e);
    ShownSize(h, e);
  }

  /** Where a member stands, the loop takes it. */
  lemma StandingTaken(src: Stream, before: seq<TarEntry>, e: TarEntry)
    requires Counts(src, before) && StandsAfter(src, before, e) && After(before).pos <= |src.data|
    requires |before| < ENTRY_LIMIT && StoredSize(before + [e]) <= EXPANDED_LIMIT
    ensures NextStep(src, After(before)) == Ok(Member(After(before + [e])))
  {
    hide CheckTarHeader, HeaderShows, Joins, FreePlace, After, StoredSize, AllZero;
    var s := After(before);
    AfterIs(before);
    var h := src.data[s.pos..s.pos + TAR_BLOCK];
    StoredMore(before, e);
    JoinsIff(before, e);
    HeaderIff(h, s.seen, s.types, e);
    ShownNotZero(h, e);
    ShownSize(h, e);
  }

  // ---------------------------------------------------------------------------------------------
  // The loop
  // ---------------------------------------------------------------------------------------------

  ghost predicate EndsAfter(src: Stream, es: seq<TarEntry>) {
    var end := StoredSize(es);
    && end + 2 * TAR_BLOCK <= |src.data| && end + TAR_BLOCK <= EXPANDED_LIMIT
    && AllZero(src.data[end..end + TAR_BLOCK]) && AllZero(src.data[end + TAR_BLOCK..end + 2 * TAR_BLOCK])
  }

  ghost function Ended(es: seq<TarEntry>): Scan {
    After(es).(pos := StoredSize(es) + 2 * TAR_BLOCK, expanded := StoredSize(es) + 2 * TAR_BLOCK)
  }

  lemma EndIff(src: Stream, es: seq<TarEntry>)
    requires Counts(src, es) && After(es).pos <= |src.data|
    ensures NextStep(src, After(es)) == Ok(EndMarker(Ended(es))) <==> EndsAfter(src, es)
    ensures NextStep(src, After(es)).Ok? && NextStep(src, After(es)).value.EndMarker? ==> EndsAfter(src, es)
  {
    hide CheckTarHeader, After, StoredSize, AllZero, MemberStep;
    AfterIs(es);
  }

  lemma MembersMore(src: Stream, before: seq<TarEntry>, e: TarEntry)
    requires Members(src, before) && StandsAfter(src, before, e) && Distinct(before)
    ensures Members(src, before + [e]) && Distinct(before + [e])
  {
    hide HeaderShows, StoredSize, After;
    var es := before + [e];
    forall i | 0 <= i < |es| ensures StandsAfter(src, es[..i], es[i]) {
      if i < |before| {
        assert es[..i] == before[..i];
      } else {
        assert es[..i] == before;
      }
    }
  }

  /** A loop that ends has found members standing from its start to two blocks of zeros. */
  lemma {:induction false} LoopFinds(src: Stream, before: seq<TarEntry>) returns (es: seq<TarEntry>)
    requires Counts(src, before) && Members(src, before) && |before| <= ENTRY_LIMIT
    requires After(before).pos <= |src.data| && ScanMembers(src, After(before)).Ok?
    ensures Members(src, es) && |es| <= ENTRY_LIMIT && EndsAfter(src, es)
    ensures ScanMembers(src, After(before)) == Ok(Ended(es))
    decreases |src.data| - After(before).pos
  {
    hide After, StoredSize, NextStep, StandsAfter, EndsAfter, Members, Distinct, Ended;
    var step := NextStep(src, After(before)).value;
    if step.Member? {
      var e := TakenStands(src, before);
      MembersMore(src, before, e);
      AfterIs(before + [e]);
      es := LoopFinds(src, before + [e]);
    } else {
      es := before;
      EndIff(src, es);
      EndIs(src, es);
    }
  }

  lemma EndIs(src: Stream, es: seq<TarEntry>)
    requires Counts(src, es) && After(es).pos <= |src.data| && EndsAfter(src, es)
    ensures NextStep(src, After(es)) == Ok(EndMarker(Ended(es)))
  {
    hide After, StoredSize, NextStep, EndsAfter, Ended;
    EndIff(src, es);
  }

  lemma {:induction false} StoredPrefix(es: seq<TarEntry>, k: nat)
    requires k <= |es|
    ensures StoredSize(es[..k]) <= StoredSize(es)
  {
    hide Padding;
    if k < |es| {
      StoredPrefix(es[..|es| - 1], k);
      assert es[..|es| - 1][..k] == es[..k];
    } else {
      assert es[..k] == es;
    }
  }

  lemma MembersDistinct(src: Stream, es: seq<TarEntry>)
    requires Members(src, es)
    ensures Distinct(es)
  {
    hide HeaderShows, StoredSize;
    forall i, j | 0 <= i < j < |es| ensures es[i].name != es[j].name {
      assert StandsAfter(src, es[..j], es[j]);
      assert es[..j][i] == es[i];
    }
  }

  /** Where members stand up to two blocks of zeros, the loop reads them all. */
  lemma {:induction false} LoopReads(src: Stream, es: seq<TarEntry>, k: nat)
    requires Members(src, es) && |es| <= ENTRY_LIMIT && EndsAfter(src, es) && k <= |es|
    ensures After(es[..k]).pos <= |src.data| && ScanMembers(src, After(es[..k])) == Ok(Ended(es))
    decreases |es| - k
  {
    hide After, StoredSize, NextStep, Joins, HeaderShows, Ended;
    MembersDistinct(src, es);
    StoredPrefix(es, k);
    AfterIs(es[..k]);
    if k == |es| {
      assert es[..k] == es;
      EndIs(src, es);
    } else {
      StoredPrefix(es, k + 1);
      assert es[..k] + [es[k]] == es[..k + 1];
      assert StandsAfter(src, es[..k], es[k]);
      StandingTaken(src, es[..k], es[k]);
      LoopReads(src, es, k + 1);
    }
  }

  // ---------------------------------------------------------------------------------------------
  // The verdict on a stream
  // ---------------------------------------------------------------------------------------------

  lemma RequiredNames()
    ensures ROOT_SLASH + REQUIRED_FILES[0] == WEB && ROOT_SLASH + REQUIRED_FILES[1] == ENGINE
    ensures ROOT_SLASH + REQUIRED_FILES[2] == CLI && ROOT_SLASH + REQUIRED_FILES[3] == HELPER
    ensures ROOT_SLASH + REQUIRED_FILES[4] == COMMIT_FILE && ROOT_SLASH + REQUIRED_FILES[5] == MANIFEST_FILE
    ensures ROOT_SLASH + REQUIRED_FILES[6] == BELOW_STATIC + Text("index.html")
    ensures |REQUIRED_FILES| == 7
    ensures ROOT_SLASH + ASSETS_SLASH == BELOW_STATIC + Text("assets/") && ROOT == Text("release")
  {
    ListedRoot();
    assert Text("assets") + [SLASH] == Text("assets/");
    assert REQUIRED_FILES[6] == STATIC_SLASH + Text("index.html");
    assert ASSETS_SLASH == STATIC_SLASH + (Text("assets") + [SLASH]);
  }

  lemma FileIff(es: seq<TarEntry>, name: bytes)
    requires Distinct(es)
    ensures IsFile(After(es).types, name) <==> HasFile(es, name)
    ensures IsDirectory(After(es).types, name) <==> exists i :: 0 <= i < |es| && es[i].name == name && es[i].directory
  {
    hide After;
    AfterIs(es);
    AfterSeen(es, name);
    forall i | 0 <= i < |es| ensures es[i].name in After(es).types && After(es).types[es[i].name] == es[i].directory {
      AfterTypes(es, i);
    }
  }

  lemma RequiredIff(es: seq<TarEntry>)
    requires Distinct(es)
    ensures HasRequired(After(es).types) <==>
              && HasFile(es, WEB) && HasFile(es, ENGINE) && HasFile(es, CLI) && HasFile(es, HELPER)
              && HasFile(es, COMMIT_FILE) && HasFile(es, MANIFEST_FILE)
              && HasFile(es, BELOW_STATIC + Text("index.html"))
  {
    hide After, Text, HasFile, IsFile;
    RequiredNames();
    forall k | 0 <= k < |REQUIRED_FILES|
      ensures IsFile(After(es).types, ROOT_SLASH + REQUIRED_FILES[k]) <==> HasFile(es, ROOT_SLASH + REQUIRED_FILES[k])
    {
      FileIff(es, ROOT_SLASH + REQUIRED_FILES[k]);
    }
  }

  lemma AssetsIff(es: seq<TarEntry>)
    ensures HasAssets(After(es).types) <==>
              exists i :: 0 <= i < |es| && BELOW_STATIC + Text("assets/") <= es[i].name
  {
    hide After, Text;
    RequiredNames();
    AfterIs(es);
    forall p ensures p in After(es).types <==> exists i :: 0 <= i < |es| && es[i].name == p {
      AfterSeen(es, p);
    }
    forall i | 0 <= i < |es| ensures es[i].name in After(es).types {
    }
  }

  lemma CompleteIff(es: seq<TarEntry>)
    requires Distinct(es)
    ensures var types := After(es).types;
            IsDirectory(types, ROOT) && HasRequired(types) && HasAssets(types) <==> Complete(es)
  {
    hide After, Text, HasFile, HasRequired, HasAssets, IsDirectory;
    RequiredNames();
    FileIff(es, ROOT);
    RequiredIff(es);
    AssetsIff(es);
  }

  /** What may follow two blocks of zeros. */
  lemma TrailingIff(src: Stream, es: seq<TarEntry>)
    requires EndsAfter(src, es)
    ensures var end := StoredSize(es) + 2 * TAR_BLOCK;
            CheckTrailing(src, end, end).Pass? <==>
              && !src.damaged && ZerosAfter(src, es) && (|src.data| > end ==> |src.data| <= EXPANDED_LIMIT)
  {
    hide StoredSize;
    var at := StoredSize(es);
    ZerosInThree(src.data, at);
  }

  lemma ZerosInThree(data: bytes, at: nat)
    requires at + 2 * TAR_BLOCK <= |data|
    ensures (forall i :: at <= i < |data| ==> data[i] == 0) <==>
              && AllZero(data[at..at + TAR_BLOCK]) && AllZero(data[at + TAR_BLOCK..at + 2 * TAR_BLOCK])
              && AllZero(data[at + 2 * TAR_BLOCK..])
  {
    var a, b, c := data[at..at + TAR_BLOCK], data[at + TAR_BLOCK..at + 2 * TAR_BLOCK], data[at + 2 * TAR_BLOCK..];
    if AllZero(a) && AllZero(b) && AllZero(c) {
      forall i | at <= i < |data| ensures data[i] == 0 {
        if i < at + TAR_BLOCK {
          assert data[i] == a[i - at];
        } else if i < at + 2 * TAR_BLOCK {
          assert data[i] == b[i - at - TAR_BLOCK];
        } else {
          assert data[i] == c[i - at - 2 * TAR_BLOCK];
        }
      }
    }
  }

  /**
   The verifying pass accepts a stream, with these entries, exactly when the stream is undamaged, their members stand
   in it one after the other with nothing but zeros behind them, they are complete, and all is within the limits.
   */
  lemma FirstPassIff(src: Stream, es: seq<TarEntry>)
    ensures FirstPass(src) == Ok(es) <==>
              && !src.damaged && Members(src, es) && ZerosAfter(src, es) && Complete(es) && WithinLimits(src, es)
  {
    hide ScanMembers, After, StoredSize, Members, ZerosAfter, Complete, HasRequired, HasAssets, IsDirectory,
         CheckTrailing, EndsAfter;
    if FirstPass(src) == Ok(es) {
      StartFinds(src, es);
      CompleteIff(es);
      TrailingIff(src, es);
      EndWithin(src, es);
    }
    if !src.damaged && Members(src, es) && ZerosAfter(src, es) && Complete(es) && WithinLimits(src, es) {
      MembersDistinct(src, es);
      EndWithin(src, es);
      StartReads(src, es);
      AfterIs(es);
      CompleteIff(es);
      TrailingIff(src, es);
    }
  }

  lemma EndWithin(src: Stream, es: seq<TarEntry>)
    ensures EndsAfter(src, es) ==>
              StoredSize(es) + 512 <= EXPANDED_LIMIT && StoredSize(es) + 2 * TAR_BLOCK <= |src.data|
    ensures ZerosAfter(src, es) && WithinLimits(src, es) ==> EndsAfter(src, es)
  {
    hide StoredSize;
    if ZerosAfter(src, es) {
      ZerosInThree(src.data, StoredSize(es));
    }
  }

  lemma StartFinds(src: Stream, es: seq<TarEntry>)
    requires FirstPass(src) == Ok(es)
    ensures Members(src, es) && Distinct(es) && |es| <= ENTRY_LIMIT && EndsAfter(src, es)
    ensures ScanMembers(src, START) == Ok(Ended(es)) && After(es).entries == es
  {
    hide ScanMembers, StandsAfter, HasRequired, HasAssets, IsDirectory, CheckTrailing, EndsAfter;
    assert After([]) == START && StoredSize([]) == 0;
    hide After, StoredSize;
    var found := LoopFinds(src, []);
    AfterIs(found);
    MembersDistinct(src, found);
  }

  lemma StartReads(src: Stream, es: seq<TarEntry>)
    requires Members(src, es) && |es| <= ENTRY_LIMIT && EndsAfter(src, es)
    ensures ScanMembers(src, START) == Ok(Ended(es))
  {
    hide ScanMembers, Members, StoredSize, EndsAfter, Ended;
    LoopReads(src, es, 0);
    assert es[..0] == [];
  }
}
