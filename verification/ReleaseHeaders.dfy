/**
 What the verifying pass accepts, read off the bytes of the stream alone: which headers, and which archives
 ("ustar Interchange Format" of `pax`, Shell & Utilities volume, IEEE Std 1003.1-2017, as far as releases use it).
 */
module ReleaseHeaders {
  import opened Wrappers
  import opened Bytes
  import opened Numerals
  import opened Paths
  import opened Ustar
  import opened TarBlocks
  import Utf8

  // ---------------------------------------------------------------------------------------------
  // Fields
  // ---------------------------------------------------------------------------------------------

  ghost predicate ShowsUpTo(field: bytes, k: nat, n: nat) {
    && 1 <= k <= |field| && (forall i :: 0 <= i < k ==> 0x30 <= field[i] <= 0x37)
    && (k < |field| ==> field[k] == 0 || field[k] == 0x20)
    && Value(field[..k], 8) == n < 0x1_0000_0000_0000_0000
  }

  /** A number: one octal digit or more, then a NUL, a space or the end of the field. */
  ghost predicate Shows(field: bytes, n: nat) {
    exists k :: ShowsUpTo(field, k, n)
  }

  /** A text: UTF-8 without a NUL, filled up with NULs. */
  predicate Holds(field: bytes, text: bytes) {
    && |text| <= |field| && text == field[..|text|] && NUL !in text && Utf8.Valid(text)
    && forall i :: |text| <= i < |field| ==> field[i] == 0
  }

  lemma {:induction false} NumberTextIs(field: bytes) returns (k: nat)
    ensures k <= |field| && NumberText(field) == field[..k]
    ensures k < |field| ==> field[k] == 0 || field[k] == 0x20
    ensures forall i :: 0 <= i < k ==> field[i] != 0 && field[i] != 0x20
  {
    if field == [] || NumberEnd(field[0]) {
      k := 0;
    } else {
      k := NumberTextIs(field[1..]);
      assert [field[0]] + field[1..][..k] == field[..k + 1];
      k := k + 1;
    }
  }

  lemma NumberParses(field: bytes, n: nat)
    ensures ParseOctal(field) == Ok(n) <==> Shows(field, n)
  {
    var k := NumberTextIs(field);
    hide NumberText, Value;
    if ParseOctal(field) == Ok(n) {
      assert ShowsUpTo(field, k, n);
    }
    if Shows(field, n) {
      var j :| ShowsUpTo(field, j, n);
      assert j == k;
    }
  }

  lemma TextHeld(field: bytes, text: bytes)
    ensures FieldText(field) == Ok(text) <==> Holds(field, text)
  {
    hide Utf8.Valid;
    var end := IndexOf(field, NUL);
    if FieldText(field) == Ok(text) {
      assert text == field[..end];
      forall i | end <= i < |field| ensures field[i] == 0 {
        assert field[i] == field[end..][i - end];
      }
    }
    if Holds(field, text) {
      IndexOfIs(field, NUL, |text|);
    }
  }

  lemma {:induction false} ValueBound(s: bytes)
    requires AllDigits(s, 8)
    ensures Value(s, 8) < Power(8, |s|)
  {
    if s != [] {
      ValueBound(s[..|s| - 1]);
    }
  }

  lemma {:induction false} PowerGrows(k: nat, m: nat)
    requires k <= m
    ensures Power(8, k) <= Power(8, m)
    decreases m
  {
    if k < m {
      PowerGrows(k, m - 1);
    }
  }

  /** Eight digits make no number that 32 bits cannot hold. */
  lemma ModeFits(field: bytes, n: nat)
    requires |field| == 8 && Shows(field, n)
    ensures n < 0x100_0000
  {
    var k: nat :| ShowsUpTo(field, k, n);
    ValueBound(field[..k]);
    PowerGrows(k, 8);
    PowersOfEight();
  }

  // ---------------------------------------------------------------------------------------------
  // Headers
  // ---------------------------------------------------------------------------------------------

  /** The checksum, magic, version and type of a member. */
  ghost predicate KindShown(h: bytes, directory: bool)
    requires |h| == TAR_BLOCK
  {
    && Shows(h[148..156], Sum(h[..148] + Repeat(0x20, 8) + h[156..]))
    && h[257..263] == Text("ustar") + [0] && h[263..265] == Text("00")
    && (if directory then h[156] == 0x35 else h[156] == 0 || h[156] == 0x30)
  }

  ghost predicate JoinedName(h: bytes, name: bytes, last: bytes, prefix: bytes)
    requires |h| == TAR_BLOCK
  {
    && Holds(h[..100], last) && Holds(h[345..500], prefix) && (prefix != [] ==> last != [])
    && var path := if prefix == [] then last else prefix + [SLASH] + last;
       path == name || path == name + [SLASH]
  }

  /**
   The prefix and name fields together hold the name, perhaps with a slash behind it; it is clean text and its
   components, of which `release` is the first, are neither empty nor `.` nor `..`.
   */
  ghost predicate NameShown(h: bytes, name: bytes)
    requires |h| == TAR_BLOCK
  {
    && (exists last, prefix :: JoinedName(h, name, last, prefix))
    && BACKSLASH !in name && !Utf8.HasControl(name)
    && AllPlain(Components(name)) && Components(name)[0] == Text("release")
  }

  const BELOW_ROOT: bytes := Text("release/")
  const WEB: bytes := BELOW_ROOT + Text("lumistripe-web")
  const ENGINE: bytes := BELOW_ROOT + Text("lumistripe-engine")
  const CLI: bytes := BELOW_ROOT + Text("lumistripe")
  const HELPER: bytes := BELOW_ROOT + Text("lumistripe-deploy-helper")
  const COMMIT_FILE: bytes := BELOW_ROOT + Text("source-commit")
  const MANIFEST_FILE: bytes := BELOW_ROOT + Text("manifest.json")
  const STATIC_FOLDER: bytes := BELOW_ROOT + Text("static")
  const BELOW_STATIC: bytes := BELOW_ROOT + Text("static/")

  predicate IsBinary(name: bytes) {
    name == WEB || name == ENGINE || name == CLI || name == HELPER
  }

  /** What a release may contain. */
  predicate OnList(name: bytes, directory: bool) {
    if directory then name == Text("release") || name == STATIC_FOLDER || BELOW_STATIC <= name
    else
      || IsBinary(name) || name == COMMIT_FILE || name == MANIFEST_FILE
      || (BELOW_STATIC <= name && name != BELOW_STATIC)
  }

  /** No set-user, set-group or sticky bit. */
  predicate PlainBits(mode: nat) {
    mode / 512 % 8 == 0
  }

  /** Any execute bit. */
  predicate RunBits(mode: nat) {
    mode / 64 % 2 == 1 || mode / 8 % 2 == 1 || mode % 2 == 1
  }

  ghost predicate NumbersShown(h: bytes, directory: bool, mode: nat, size: nat)
    requires |h| == TAR_BLOCK
  {
    && Shows(h[100..108], mode) && PlainBits(mode) && Shows(h[108..116], 0) && Shows(h[116..124], 0)
    && (forall i :: 157 <= i < 257 || 265 <= i < 329 ==> h[i] == 0)
    && Shows(h[329..337], 0) && Shows(h[337..345], 0)
    && Shows(h[124..136], size) && size <= 0x800_0000 && (directory ==> size == 0)
  }

  /** A header that the verifier takes for this entry, wherever it stands. */
  ghost predicate HeaderShows(h: bytes, e: TarEntry)
    requires |h| == TAR_BLOCK
  {
    && KindShown(h, e.directory) && NameShown(h, e.name) && OnList(e.name, e.directory)
    && NumbersShown(h, e.directory, e.mode, e.size)
    && (!e.directory ==> (RunBits(e.mode) <==> IsBinary(e.name)))
  }

  /** Nothing seen before has this name, is a file in the place of its parent, or, below a file, lies beneath it. */
  predicate FreePlace(name: bytes, directory: bool, seen: set<bytes>, types: map<bytes, bool>) {
    && name !in seen
    && (forall p :: p in types.Keys && !types[p] ==> !(p + [SLASH] <= name && SLASH !in name[|p| + 1..]))
    && (!directory ==> forall p :: p in types.Keys ==> !(name + [SLASH] <= p))
  }

  lemma KindIff(h: bytes, directory: bool)
    requires |h| == TAR_BLOCK
    ensures CheckKind(h) == Ok(directory) <==> KindShown(h, directory)
  {
    hide ParseOctal, Shows, Sum;
    assert MAGIC == Text("ustar") + [0] && VERSION == Text("00");
    NumberParses(h[148..156], Sum(h[..148] + Repeat(SPACE, 8) + h[156..]));
  }

  lemma NumbersIff(h: bytes, directory: bool, mode: nat, size: nat)
    requires |h| == TAR_BLOCK
    ensures CheckNumbers(h, directory) == Ok((mode, size)) <==> NumbersShown(h, directory, mode, size)
  {
    hide ParseOctal, Shows;
    NumberParses(h[108..116], 0);
    NumberParses(h[116..124], 0);
    NumberParses(h[329..337], 0);
    NumberParses(h[337..345], 0);
    NumberParses(h[124..136], size);
    NumberParses(h[100..108], mode);
    if ParseOctal(h[100..108]).Ok? {
      var parsed := ParseOctal(h[100..108]).value;
      NumberParses(h[100..108], parsed);
      ModeFits(h[100..108], parsed);
    }
    UnusedZero(h);
  }

  lemma UnusedZero(h: bytes)
    requires |h| == TAR_BLOCK
    ensures AllZero(h[157..257]) && AllZero(h[265..329]) <==>
            forall i :: 157 <= i < 257 || 265 <= i < 329 ==> h[i] == 0
  {
    var a, b := h[157..257], h[265..329];
    if AllZero(a) && AllZero(b) {
      forall i | 157 <= i < 257 || 265 <= i < 329 ensures h[i] == 0 {
        if i < 257 {
          assert h[i] == a[i - 157];
        } else {
          assert h[i] == b[i - 265];
        }
      }
    }
  }

  /** Plain components leave no slash at either end. */
  lemma PlainEnds(name: bytes)
    requires AllPlain(Components(name))
    ensures name != [] && name[0] != SLASH && name[|name| - 1] != SLASH
  {
    hide Components;
    if name == [] || name[0] == SLASH {
      SlashBegins(name);
    } else if name[|name| - 1] == SLASH {
      SlashEnds(name);
    }
  }

  lemma SlashBegins(name: bytes)
    requires name == [] || name[0] == SLASH
    ensures !AllPlain(Components(name))
  {
    hide Components;
    if name == [] {
      EmptyComponent();
    } else {
      assert name == [] + [SLASH] + name[1..];
      FirstSlash([], name[1..]);
    }
    assert Components(name)[0] == [];
  }

  lemma SlashEnds(name: bytes)
    requires name != [] && name[|name| - 1] == SLASH
    ensures !AllPlain(Components(name))
  {
    hide Components;
    var front := name[..|name| - 1];
    assert name == front + [SLASH] + [];
    ComponentsConcat(front, []);
    EmptyComponent();
    assert Components(name)[|Components(front)|] == [];
  }

  lemma EmptyComponent()
    ensures Components([]) == [[]]
  {
  }

  lemma CleanFront(name: bytes, path: bytes)
    requires path == name || path == name + [SLASH]
    ensures CleanText(path) <==> NUL !in name && BACKSLASH !in name && !Utf8.HasControl(name)
  {
    if path != name {
      assert forall i :: 0 <= i < |name| ==> path[i] == name[i];
      assert forall i :: 0 <= i < |name| && Utf8.ControlAt(path, i) ==> Utf8.ControlAt(name, i);
      assert forall i :: 0 <= i < |name| && Utf8.ControlAt(name, i) ==> Utf8.ControlAt(path, i);
      assert !Utf8.ControlAt(path, |name|);
    }
  }

  lemma SafeNameIff(path: bytes, name: bytes)
    requires |path| <= PATH_LIMIT && NUL !in path
    ensures SafeArchiveName(path) == Ok(name) <==>
              && (path == name || path == name + [SLASH])
              && BACKSLASH !in name && !Utf8.HasControl(name)
              && AllPlain(Components(name)) && Components(name)[0] == Text("release")
  {
    hide Components, AllPlain, CleanText, Join, Utf8.HasControl;
    if path == name || path == name + [SLASH] {
      CleanFront(name, path);
    }
    if AllPlain(Components(name)) {
      PlainEnds(name);
    }
    JoinComponents(name);
    JoinComponents(StripSlash(path));
    if SafeArchiveName(path) == Ok(name) {
      assert name == StripSlash(path);
    }
  }

  /** The path that the two name fields hold. */
  function PathOf(last: bytes, prefix: bytes): bytes {
    if prefix == [] then last else prefix + [SLASH] + last
  }

  lemma PathFits(h: bytes, last: bytes, prefix: bytes)
    requires |h| == TAR_BLOCK && Holds(h[..100], last) && Holds(h[345..500], prefix)
    ensures |PathOf(last, prefix)| <= 256 && NUL !in PathOf(last, prefix)
  {
  }

  lemma MemberNameIs(h: bytes, directory: bool, last: bytes, prefix: bytes)
    requires |h| == TAR_BLOCK && Holds(h[..100], last) && Holds(h[345..500], prefix)
    ensures var path := PathOf(last, prefix);
            ArchiveMemberName(h, directory) ==
            if prefix != [] && last == [] then Err(InvalidUstarPath)
            else SafeArchiveName(if directory && !EndsWithSlash(path) then path + [SLASH] else path)
  {
    hide SafeArchiveName, FieldText, Holds;
    TextHeld(h[..100], last);
    TextHeld(h[345..500], prefix);
  }

  lemma NameIff(h: bytes, directory: bool, name: bytes)
    requires |h| == TAR_BLOCK
    ensures ArchiveMemberName(h, directory) == Ok(name) <==> NameShown(h, name)
  {
    hide Components, AllPlain, SafeArchiveName, Holds, Utf8.HasControl;
    if ArchiveMemberName(h, directory) == Ok(name) {
      var last, prefix := FieldText(h[..100]).value, FieldText(h[345..500]).value;
      hide FieldText;
      TextHeld(h[..100], last);
      TextHeld(h[345..500], prefix);
      HeldIff(h, directory, name, last, prefix);
      assert JoinedName(h, name, last, prefix);
    }
    if NameShown(h, name) {
      var last, prefix :| JoinedName(h, name, last, prefix);
      hide FieldText, ArchiveMemberName;
      HeldIff(h, directory, name, last, prefix);
    }
  }

  lemma HeldIff(h: bytes, directory: bool, name: bytes, last: bytes, prefix: bytes)
    requires |h| == TAR_BLOCK && Holds(h[..100], last) && Holds(h[345..500], prefix)
    ensures ArchiveMemberName(h, directory) == Ok(name) <==>
              && JoinedName(h, name, last, prefix)
              && BACKSLASH !in name && !Utf8.HasControl(name)
              && AllPlain(Components(name)) && Components(name)[0] == Text("release")
  {
    hide Components, AllPlain, SafeArchiveName, Holds, Utf8.HasControl, ArchiveMemberName;
    MemberNameIs(h, directory, last, prefix);
    PathFits(h, last, prefix);
    var path := PathOf(last, prefix);
    var slashed := if directory && !EndsWithSlash(path) then path + [SLASH] else path;
    SafeNameIff(slashed, name);
    if AllPlain(Components(name)) {
      PlainEnds(name);
      if path + [SLASH] == name + [SLASH] {
        assert (path + [SLASH])[..|path|] == (name + [SLASH])[..|name|];
      }
    }
  }

  // ---------------------------------------------------------------------------------------------
  // The verdict on a header
  // ---------------------------------------------------------------------------------------------

  lemma ListedRoot()
    ensures ROOT_SLASH == BELOW_ROOT && ROOT_SLASH + STATIC_SLASH == BELOW_STATIC
  {
    assert STATIC_SLASH == Text("static/");
  }

  /** The tests on the part of a name below the root are tests on the name. */
  lemma BinaryIff(name: bytes)
    requires name == ROOT || ROOT_SLASH <= name
    ensures Relative(name) in RELEASE_BINARIES <==> IsBinary(name)
  {
    hide Text;
    ListedRoot();
    ShortRoot();
    if ROOT_SLASH <= name {
      assert name == ROOT_SLASH + Relative(name);
    }
    assert forall k :: 0 <= k < 4 ==> (ROOT_SLASH + RELEASE_BINARIES[k])[8..] == RELEASE_BINARIES[k];
  }

  lemma ShortRoot()
    ensures |ROOT| == 7 && |ROOT_SLASH| == 8 && forall k :: 0 <= k < 4 ==> |RELEASE_BINARIES[k]| >= 10
  {
  }

  lemma ListIff(name: bytes, directory: bool)
    requires name == ROOT || ROOT_SLASH <= name
    ensures if directory then AllowedDirectory(name) <==> OnList(name, true)
            else AllowedFile(name) && name != ROOT <==> OnList(name, false)
  {
    hide Text, IsBinary, Relative;
    ShortRoot();
    BinaryIff(name);
    ListedRoot();
    if ROOT_SLASH <= name {
      var relative := name[|ROOT_SLASH|..];
      assert name == ROOT_SLASH + relative;
      UnderStatic(relative);
    }
    RootIsNoBinary();
  }

  lemma RootIsNoBinary()
    ensures !IsBinary(ROOT) && ROOT != ROOT_SLASH + STATIC && ROOT == Text("release")
  {
  }

  lemma UnderStatic(relative: bytes)
    ensures ROOT_SLASH + STATIC_SLASH <= ROOT_SLASH + relative <==> STATIC_SLASH <= relative
    ensures ROOT_SLASH + relative == ROOT_SLASH + STATIC_SLASH <==> relative == STATIC_SLASH
    ensures ROOT_SLASH + relative == ROOT_SLASH + STATIC <==> relative == STATIC
  {
    hide Text;
    var whole := ROOT_SLASH + relative;
    assert whole[|ROOT_SLASH|..] == relative;
    assert (ROOT_SLASH + STATIC_SLASH)[|ROOT_SLASH|..] == STATIC_SLASH;
    assert (ROOT_SLASH + STATIC)[|ROOT_SLASH|..] == STATIC;
    if |whole| >= |ROOT_SLASH + STATIC_SLASH| {
      assert whole[..|ROOT_SLASH + STATIC_SLASH|] == ROOT_SLASH + relative[..|STATIC_SLASH|];
      assert (ROOT_SLASH + relative[..|STATIC_SLASH|])[|ROOT_SLASH|..] == relative[..|STATIC_SLASH|];
    }
  }

  lemma RootedName(name: bytes)
    requires Components(name)[0] == ROOT
    ensures name == ROOT || ROOT_SLASH <= name
  {
    var i := IndexOf(name, SLASH);
    if i < |name| {
      assert name[..i] == ROOT;
      assert name[..i + 1] == ROOT + [SLASH];
    }
  }

  lemma ParentIff(name: bytes, p: bytes)
    ensures Parent(name) == Some(p) <==> p + [SLASH] <= name && SLASH !in name[|p| + 1..]
  {
    if Parent(name) == Some(p) {
      NoSlashAfter(name, |p|);
    }
    if p + [SLASH] <= name {
      assert name[|p|] == SLASH;
      var q := Parent(name).value;
      assert q == name[..|q|] && p == name[..|p|];
      if |q| > |p| {
        assert (q + [SLASH])[|q|] == name[|q|];
        assert name[|p| + 1..][|q| - |p| - 1] == SLASH;
      }
    }
  }

  lemma NoSlashAfter(name: bytes, k: nat)
    requires k < |name| && forall i :: k < i < |name| ==> name[i] != SLASH
    ensures SLASH !in name[k + 1..]
  {
  }

  lemma PlaceIff(name: bytes, directory: bool, seen: set<bytes>, types: map<bytes, bool>)
    ensures FreePlace(name, directory, seen, types) <==>
              && name !in seen
              && (Parent(name).Some? && Parent(name).value in types ==> types[Parent(name).value])
              && (!directory ==> forall p :: p in types.Keys ==> !Above(name, p))
  {
    hide Parent;
    forall p ensures Parent(name) == Some(p) <==> p + [SLASH] <= name && SLASH !in name[|p| + 1..] {
      ParentIff(name, p);
    }
  }

  /** A header is accepted as an entry exactly when it shows the entry and nothing before it is in the way. */
  lemma HeaderIff(h: bytes, seen: set<bytes>, types: map<bytes, bool>, e: TarEntry)
    requires |h| == TAR_BLOCK
    ensures CheckTarHeader(h, seen, types) == Ok(e) <==>
              HeaderShows(h, e) && FreePlace(e.name, e.directory, seen, types)
  {
    hide CheckKind, ArchiveMemberName, CheckNumbers, AllowedDirectory, AllowedFile, KindShown, NameShown, NumbersShown,
         OnList, IsBinary, Relative, FreePlace, Parent;
    KindIff(h, e.directory);
    NameIff(h, e.directory, e.name);
    NumbersIff(h, e.directory, e.mode, e.size);
    PlaceIff(e.name, e.directory, seen, types);
    if NameShown(h, e.name) {
      NameRooted(h, e.name);
      BinaryIff(e.name);
      ListIff(e.name, e.directory);
    }
  }

  lemma NameRooted(h: bytes, name: bytes)
    requires |h| == TAR_BLOCK && NameShown(h, name)
    ensures name == ROOT || ROOT_SLASH <= name
  {
    hide Components, AllPlain, JoinedName;
    RootedName(name);
  }
}
