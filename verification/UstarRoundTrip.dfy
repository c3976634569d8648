/** What the verifier reads back from a header the packager wrote. */
module UstarRoundTrip {
  import opened Wrappers
  import opened Bytes
  import opened Numerals
  import opened Paths
  import opened Ustar
  import Utf8

  // ---------------------------------------------------------------------------------------------
  // Numeric fields
  // ---------------------------------------------------------------------------------------------

  lemma {:induction false} NumberTextStops(s: bytes, rest: bytes)
    requires AllDigits(s, 8)
    requires rest == [] || NumberEnd(rest[0])
    ensures NumberText(s + rest) == s
  {
    if s == [] {
      assert s + rest == rest;
    } else {
      assert (s + rest)[1..] == s[1..] + rest;
      NumberTextStops(s[1..], rest);
    }
  }

  /** Zero-padded digits with any terminator are read back as the number. */
  lemma PaddedParses(value: nat, k: nat, rest: bytes)
    requires rest == [] || NumberEnd(rest[0])
    requires value < U64_LIMIT
    ensures ParseOctal(Repeat(ZERO, k) + Digits(value, 8) + rest) == Ok(value)
  {
    var digits := Digits(value, 8);
    ValuePadded(k, digits, 8);
    ValueOfDigits(value, 8);
    NumberTextStops(Repeat(ZERO, k) + digits, rest);
  }

  /** A field holds every number with at most width - 1 octal digits, and holds it faithfully. */
  lemma OctalFieldRoundTrip(value: nat, width: nat)
    requires width >= 2
    ensures OctalField(value, width).Ok? <==> value < Power(8, width - 1)
    ensures OctalField(value, width).Ok? && value < U64_LIMIT ==>
            ParseOctal(OctalField(value, width).value) == Ok(value)
  {
    DigitsLength(value, 8, width - 1);
    if OctalField(value, width).Ok? && value < U64_LIMIT {
      PaddedParses(value, width - |Digits(value, 8)| - 1, [NUL]);
    }
  }

  lemma ZeroFields()
    ensures OctalField(0, 8) == Ok(ZERO8)
    ensures OctalField(0, 12) == Ok(ZERO12)
    ensures ParseOctal(ZERO8) == Ok(0)
  {
    assert Repeat(ZERO, 6) + Digits(0, 8) + [NUL] == ZERO8;
    assert Repeat(ZERO, 10) + Digits(0, 8) + [NUL] == ZERO12;
    PowersOfEight();
    OctalFieldRoundTrip(0, 8);
  }

  /** The byte sum of a header always has a six-digit octal form, so the overflow error is unreachable. */
  lemma ChecksumFits(front: bytes, back: bytes)
    requires |front| == 148 && |back| == 356
    ensures var sum := Sum(front + Repeat(SPACE, 8) + back);
            |ChecksumDigits(sum)| == 6 && ParseOctal(ChecksumDigits(sum) + [NUL, SPACE]) == Ok(sum)
  {
    var sum := Sum(front + Repeat(SPACE, 8) + back);
    SumBound(front + Repeat(SPACE, 8) + back);
    PowersOfEight();
    DigitsLength(sum, 8, 6);
    var digits := Digits(sum, 8);
    PaddedParses(sum, 6 - |digits|, [NUL, SPACE]);
    assert Repeat(ZERO, 0) + digits == digits;
  }

  // ---------------------------------------------------------------------------------------------
  // Layout
  // ---------------------------------------------------------------------------------------------

  lemma FrontFields(namePart: bytes, mode: bytes, size: bytes)
    requires |namePart| <= NAME_FIELD && |mode| == 8 && |size| == 12
    ensures var f := Front(namePart, mode, size);
            && f[..100] == namePart + Repeat(NUL, NAME_FIELD - |namePart|)
            && f[100..108] == mode && f[108..116] == ZERO8 && f[116..124] == ZERO8 && f[124..136] == size
  {
  }

  lemma BackFields(prefixPart: bytes, directory: bool)
    requires |prefixPart| <= PREFIX_FIELD
    ensures var b := Back(prefixPart, directory);
            && b[0] == (if directory then DIRECTORY_TYPE else FILE_TYPE)
            && AllZero(b[1..101]) && b[101..107] == MAGIC && b[107..109] == VERSION && AllZero(b[109..173])
            && b[173..181] == ZERO8 && b[181..189] == ZERO8
            && b[189..344] == prefixPart + Repeat(NUL, PREFIX_FIELD - |prefixPart|)
  {
    BackEnds(prefixPart, directory);
  }

  lemma BackEnds(prefixPart: bytes, directory: bool)
    requires |prefixPart| <= PREFIX_FIELD
    ensures var b := Back(prefixPart, directory);
            && b[109..173] == Repeat(NUL, 64) && b[173..181] == ZERO8 && b[181..189] == ZERO8
            && b[189..344] == prefixPart + Repeat(NUL, PREFIX_FIELD - |prefixPart|)
  {
  }

  /** The slices of a header the verifier looks at, in terms of its two halves. */
  lemma HeaderHalves(front: bytes, check: bytes, back: bytes)
    requires |front| == 148 && |check| == 8 && |back| == 356
    ensures var h := front + check + back;
            && |h| == TAR_BLOCK
            && h[..148] == front && h[148..156] == check && h[156..] == back
            && h[..100] == front[..100] && h[100..108] == front[100..108] && h[108..116] == front[108..116]
            && h[116..124] == front[116..124] && h[124..136] == front[124..136]
            && h[156] == back[0] && h[157..257] == back[1..101] && h[257..263] == back[101..107]
            && h[263..265] == back[107..109] && h[265..329] == back[109..173] && h[329..337] == back[173..181]
            && h[337..345] == back[181..189] && h[345..500] == back[189..344]
  {
  }

  lemma TextField(text: bytes, k: nat)
    requires NUL !in text
    requires Utf8.Valid(text)
    ensures FieldText(text + Repeat(NUL, k)) == Ok(text)
  {
    var field := text + Repeat(NUL, k);
    IndexOfIs(field, NUL, |text|);
    assert field[..|text|] == text;
  }

  // ---------------------------------------------------------------------------------------------
  // Names
  // ---------------------------------------------------------------------------------------------

  /** The length class in which a directory is split at its own trailing slash. */
  predicate SplitAtTrailingSlash(name: bytes, directory: bool) {
    directory && 101 <= |name| <= 156
  }

  /** What the packager passes: text of the file system, with the trailing slash on directories alone. */
  predicate PackagerName(name: bytes, directory: bool) {
    && Utf8.Valid(name)
    && NUL !in name
    && name != []
    && name[0] != SLASH
    && (directory <==> EndsWithSlash(name))
  }

  /** A name cut at a slash into a part for each of the two fields. */
  predicate CutInto(name: bytes, prefix: bytes, last: bytes) {
    name == prefix + [SLASH] + last && |prefix| <= 155 && |last| <= 100
  }

  lemma CutAt(name: bytes, prefix: bytes, last: bytes)
    ensures CutInto(name, prefix, last) <==>
              var i := |prefix|; i < |name| && SplitsAt(name, i) && prefix == name[..i] && last == name[i + 1..]
  {
    if CutInto(name, prefix, last) {
      assert name[|prefix|] == SLASH;
    }
  }

  /**
   A name of up to a hundred bytes is stored whole; a longer one exactly when it can be cut for the two fields, and
   then no cut leaves less for the name field.
   */
  lemma SplitNameIs(name: bytes)
    ensures |name| <= 100 ==> SplitName(name) == Ok((name, []))
    ensures |name| > 100 ==> (SplitName(name).Ok? <==> exists prefix, last :: CutInto(name, prefix, last))
    ensures forall prefix, last ::
              |name| > 100 && CutInto(name, prefix, last) ==>
                var (shortest, longest) := SplitName(name).value;
                CutInto(name, longest, shortest) && |last| >= |shortest|
  {
    hide SplitsAt, CutInto;
    if |name| > 100 {
      var cut := SplitIndex(name, |name|);
      if cut.Some? {
        CutAt(name, name[..cut.value], name[cut.value + 1..]);
      }
      forall prefix, last | CutInto(name, prefix, last)
        ensures cut.Some? && CutInto(name, name[..cut.value], name[cut.value + 1..])
        ensures |last| >= |name| - cut.value - 1
      {
        CutAt(name, prefix, last);
      }
    }
  }

  /** A path splits unless no slash leaves both parts short enough, and the parts make up the path. */
  lemma SplitNameParts(name: bytes, directory: bool)
    requires PackagerName(name, directory)
    ensures SplitName(name).Ok? <==> |name| <= NAME_FIELD || exists i :: 0 <= i < |name| && SplitsAt(name, i)
    ensures SplitName(name).Ok? ==>
              var (namePart, prefixPart) := SplitName(name).value;
              && (name == if prefixPart == [] then namePart else prefixPart + [SLASH] + namePart)
              && Utf8.Valid(namePart) && Utf8.Valid(prefixPart) && NUL !in namePart && NUL !in prefixPart
              && (namePart == [] <==> SplitAtTrailingSlash(name, directory))
              && (prefixPart == [] <==> |name| <= NAME_FIELD)
  {
    if |name| > NAME_FIELD && SplitIndex(name, |name|).Some? {
      var i := SplitIndex(name, |name|).value;
      assert name == name[..i] + [SLASH] + name[i + 1..];
      Utf8.ValidAroundAscii(name[..i], SLASH, name[i + 1..]);
      if SplitAtTrailingSlash(name, directory) {
        assert SplitsAt(name, |name| - 1);
      }
    }
  }

  /** Every field of a written header. */
  lemma WrittenFields(name: bytes, directory: bool, size: nat, mode: nat)
    requires MakeTarHeader(name, directory, size, mode).Ok?
    ensures var h := MakeTarHeader(name, directory, size, mode).value;
            var (namePart, prefixPart) := SplitName(name).value;
            && h[..100] == namePart + Repeat(NUL, NAME_FIELD - |namePart|)
            && OctalField(mode, 8) == Ok(h[100..108])
            && h[108..116] == ZERO8 && h[116..124] == ZERO8
            && OctalField(if directory then 0 else size, 12) == Ok(h[124..136])
            && ParseOctal(h[148..156]) == Ok(Checksum(h))
            && h[156] == (if directory then DIRECTORY_TYPE else FILE_TYPE)
            && AllZero(h[157..257]) && h[257..263] == MAGIC && h[263..265] == VERSION && AllZero(h[265..329])
            && h[329..337] == ZERO8 && h[337..345] == ZERO8
            && h[345..500] == prefixPart + Repeat(NUL, PREFIX_FIELD - |prefixPart|)
  {
    var (namePart, prefixPart) := SplitName(name).value;
    var modeField := OctalField(mode, 8).value;
    var sizeField := OctalField(if directory then 0 else size, 12).value;
    var front := Front(namePart, modeField, sizeField);
    var back := Back(prefixPart, directory);
    HeaderHalves(front, ChecksumDigits(Sum(front + Repeat(SPACE, 8) + back)) + [NUL, SPACE], back);
    FrontFields(namePart, modeField, sizeField);
    BackFields(prefixPart, directory);
    ChecksumFits(front, back);
  }

  /** A written header passes the checksum, magic and type checks with the flag it was given. */
  lemma KindRoundTrip(name: bytes, directory: bool, size: nat, mode: nat)
    requires MakeTarHeader(name, directory, size, mode).Ok?
    ensures CheckKind(MakeTarHeader(name, directory, size, mode).value) == Ok(directory)
  {
    WrittenFields(name, directory, size, mode);
  }

  lemma MemberNameFrom(h: bytes, directory: bool, namePart: bytes, prefixPart: bytes)
    requires |h| == TAR_BLOCK
    requires FieldText(h[..100]) == Ok(namePart) && FieldText(h[345..500]) == Ok(prefixPart)
    ensures var value := if prefixPart == [] then namePart else prefixPart + [SLASH] + namePart;
            ArchiveMemberName(h, directory) ==
            if prefixPart != [] && namePart == [] then Err(InvalidUstarPath)
            else SafeArchiveName(if directory && !EndsWithSlash(value) then value + [SLASH] else value)
  {
    hide FieldText, SafeArchiveName;
  }

  /** A written header names the path it was given, unless the path was split at its trailing slash. */
  lemma NameRoundTrip(name: bytes, directory: bool, size: nat, mode: nat)
    requires PackagerName(name, directory)
    requires MakeTarHeader(name, directory, size, mode).Ok?
    ensures ArchiveMemberName(MakeTarHeader(name, directory, size, mode).value, directory) ==
            if SplitAtTrailingSlash(name, directory) then Err(InvalidUstarPath) else SafeArchiveName(name)
  {
    SplitSucceeded(name, directory, size, mode);
    hide MakeTarHeader, OctalField, ParseOctal, Checksum, SplitAtTrailingSlash, SafeArchiveName, ArchiveMemberName,
         Utf8.Valid;
    WrittenFields(name, directory, size, mode);
    SplitNameParts(name, directory);
    hide SplitName, SplitsAt;
    var (namePart, prefixPart) := SplitName(name).value;
    NameFromFields(MakeTarHeader(name, directory, size, mode).value, directory, namePart, prefixPart);
    hide PackagerName;
  }

  lemma SplitSucceeded(name: bytes, directory: bool, size: nat, mode: nat)
    requires MakeTarHeader(name, directory, size, mode).Ok?
    ensures SplitName(name).Ok?
  {
  }

  lemma NameFromFields(h: bytes, directory: bool, namePart: bytes, prefixPart: bytes)
    requires |h| == TAR_BLOCK && |namePart| <= NAME_FIELD && |prefixPart| <= PREFIX_FIELD
    requires h[..100] == namePart + Repeat(NUL, NAME_FIELD - |namePart|)
    requires h[345..500] == prefixPart + Repeat(NUL, PREFIX_FIELD - |prefixPart|)
    requires Utf8.Valid(namePart) && Utf8.Valid(prefixPart) && NUL !in namePart && NUL !in prefixPart
    ensures var value := if prefixPart == [] then namePart else prefixPart + [SLASH] + namePart;
            ArchiveMemberName(h, directory) ==
            if prefixPart != [] && namePart == [] then Err(InvalidUstarPath)
            else SafeArchiveName(if directory && !EndsWithSlash(value) then value + [SLASH] else value)
  {
    hide SafeArchiveName, ArchiveMemberName, Utf8.Valid, FieldText;
    TextField(namePart, NAME_FIELD - |namePart|);
    TextField(prefixPart, PREFIX_FIELD - |prefixPart|);
    MemberNameFrom(h, directory, namePart, prefixPart);
  }

  /** Mode and size are read back as written. */
  lemma NumbersRoundTrip(name: bytes, directory: bool, size: nat, mode: nat)
    requires MakeTarHeader(name, directory, size, mode).Ok?
    requires mode < 0x200
    ensures CheckNumbers(MakeTarHeader(name, directory, size, mode).value, directory) ==
            if !directory && size > FILE_LIMIT then Err(FileTooLarge)
            else Ok((mode, if directory then 0 else size))
  {
    var written := if directory then 0 else size;
    hide MakeTarHeader, OctalField, ParseOctal, Checksum, Digits;
    WrittenFields(name, directory, size, mode);
    hide SplitName;
    ZeroFields();
    PowersOfEight();
    OctalFieldRoundTrip(mode, 8);
    OctalFieldRoundTrip(written, 12);
  }

  /** `make_tar_header` fails on an unsplittable path or an oversized number, and never on the checksum. */
  lemma MakeTarHeaderSucceeds(name: bytes, directory: bool, size: nat, mode: nat)
    requires PackagerName(name, directory)
    ensures MakeTarHeader(name, directory, size, mode).Ok? <==>
            && (|name| <= NAME_FIELD || exists i :: 0 <= i < |name| && SplitsAt(name, i))
            && mode < 0x20_0000
            && (directory || size < 0x2_0000_0000)
    ensures MakeTarHeader(name, directory, size, mode) != Err(ChecksumOverflow)
  {
    SplitNameParts(name, directory);
    PowersOfEight();
    OctalFieldRoundTrip(mode, 8);
    OctalFieldRoundTrip(if directory then 0 else size, 12);
    if SplitName(name).Ok? && OctalField(mode, 8).Ok? && OctalField(if directory then 0 else size, 12).Ok? {
      var (namePart, prefixPart) := SplitName(name).value;
      var front := Front(namePart, OctalField(mode, 8).value, OctalField(if directory then 0 else size, 12).value);
      ChecksumFits(front, Back(prefixPart, directory));
    }
  }
}
