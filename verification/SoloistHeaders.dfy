/** What the fields of a Soloist header and its extended metadata say, read off their bytes. */
module SoloistHeaders {
  import opened Wrappers
  import opened Bytes
  import opened Numerals
  import opened Sequences
  import opened Soloist
  import Pax

  // ---------------------------------------------------------------------------------------------
  // Numbers
  // ---------------------------------------------------------------------------------------------

  predicate IsBlank(b: byte) {
    b == 0 || b == 0x20
  }

  ghost predicate OctalBetween(field: bytes, i: nat, k: nat, n: nat) {
    && i <= k <= |field| && (forall j :: 0 <= j < i ==> IsBlank(field[j]))
    && (i < |field| ==> !IsBlank(field[i])) && (k < |field| ==> IsBlank(field[k]))
    && (forall j :: i <= j < k ==> 0x30 <= field[j] <= 0x37) && Value(field[i..k], 8) == n
  }

  /** An octal number between blanks, or nothing but blanks for zero; the top bit of the first byte is not set. */
  ghost predicate ShowsOctal(field: bytes, n: nat) {
    && (field != [] ==> field[0] < 0x80) && n < 0x1_0000_0000_0000_0000
    && exists i, k :: OctalBetween(field, i, k, n)
  }

  lemma {:induction false} BlanksSkipped(field: bytes) returns (i: nat)
    ensures i <= |field| && SkipBlanks(field) == field[i..]
    ensures (forall j :: 0 <= j < i ==> IsBlank(field[j])) && (i < |field| ==> !IsBlank(field[i]))
  {
    if field != [] && Blank(field[0]) {
      i := BlanksSkipped(field[1..]);
      i := i + 1;
    } else {
      i := 0;
    }
  }

  lemma {:induction false} BlankReached(field: bytes) returns (k: nat)
    ensures k <= |field| && UntilBlank(field) == field[..k]
    ensures (forall j :: 0 <= j < k ==> !IsBlank(field[j])) && (k < |field| ==> IsBlank(field[k]))
  {
    if field == [] || Blank(field[0]) {
      k := 0;
    } else {
      k := BlankReached(field[1..]);
      assert [field[0]] + field[1..][..k] == field[..k + 1];
      k := k + 1;
    }
  }

  /** The checked fold computes the number, and fails exactly on a bad digit or on overflow. */
  lemma {:induction false} FoldIsValue(done: bytes, rest: bytes)
    requires AllDigits(done, 8) && Value(done, 8) < U64_LIMIT
    ensures FoldOctal(rest, Value(done, 8)).Ok? <==> AllDigits(done + rest, 8) && Value(done + rest, 8) < U64_LIMIT
    ensures FoldOctal(rest, Value(done, 8)).Ok? ==> FoldOctal(rest, Value(done, 8)) == Ok(Value(done + rest, 8))
    decreases |rest|
  {
    if rest == [] {
      assert done + rest == done;
    } else {
      var more := done + [rest[0]];
      assert more + rest[1..] == done + rest;
      assert (done + rest)[|done|] == rest[0];
      if IsDigit(rest[0], 8) {
        assert more[..|more| - 1] == done;
        if Value(more, 8) < U64_LIMIT {
          FoldIsValue(more, rest[1..]);
        } else if AllDigits(done + rest, 8) {
          ValueGrows(more, rest[1..]);
        }
      }
    }
  }

  lemma {:induction false} ValueGrows(a: bytes, b: bytes)
    requires AllDigits(a + b, 8)
    ensures AllDigits(a, 8) && Value(a + b, 8) >= Value(a, 8)
    decreases |b|
  {
    var s := a + b;
    assert forall i :: 0 <= i < |a| ==> a[i] == s[i];
    if b == [] {
      assert s == a;
    } else {
      assert s[..|s| - 1] == a + b[..|b| - 1];
      ValueGrows(a, b[..|b| - 1]);
    }
  }

  lemma DigitsFold(digits: bytes, n: nat)
    ensures FoldOctal(digits, 0) == Ok(n) <==> AllDigits(digits, 8) && Value(digits, 8) == n < U64_LIMIT
  {
    FoldIsValue([], digits);
    assert [] + digits == digits;
  }

  lemma OctalIff(field: bytes, n: nat)
    ensures ParseOctal(field) == Ok(n) <==> ShowsOctal(field, n)
  {
    hide SkipBlanks, UntilBlank, FoldOctal, Value;
    var i := BlanksSkipped(field);
    var length := BlankReached(field[i..]);
    var k := i + length;
    assert field[i..][..length] == field[i..k];
    DigitsFold(field[i..k], n);
    if ParseOctal(field) == Ok(n) {
      assert forall j :: i <= j < k ==> field[j] == field[i..k][j - i];
      assert OctalBetween(field, i, k, n);
    }
    if ShowsOctal(field, n) {
      var a: nat, b: nat :| OctalBetween(field, a, b, n);
      assert a == i;
    }
  }

  /** A decimal number below 2^64, perhaps with a plus sign and leading zeros. */
  ghost predicate SpellsDecimal(text: bytes, n: nat) {
    n < 0x1_0000_0000_0000_0000 && exists plus: bytes, k :: DecimalParts(text, plus, k, n)
  }

  predicate DecimalParts(text: bytes, plus: bytes, k: nat, n: nat) {
    (plus == [] || plus == [0x2B]) && text == plus + Repeat(0x30, k) + Digits(n, 10)
  }

  lemma DecimalIff(text: bytes, n: nat)
    ensures Pax.ParseUnsigned(text) == Some(n) <==> SpellsDecimal(text, n)
  {
    hide Value, Digits;
    if Pax.ParseUnsigned(text) == Some(n) {
      DecimalSpelt(text, n);
    }
    if SpellsDecimal(text, n) {
      var plus, k :| DecimalParts(text, plus, k, n);
      DecimalRead(text, plus, k, n);
    }
  }

  lemma DecimalSpelt(text: bytes, n: nat)
    requires Pax.ParseUnsigned(text) == Some(n)
    ensures SpellsDecimal(text, n)
  {
    hide Digits;
    var plus := if text[0] == PLUS then [PLUS] else [];
    var digits := text[|plus|..];
    assert text == plus + digits;
    hide Value;
    var k := DecimalDigits(digits);
    Regroup(plus, Repeat(0x30, k), Digits(n, 10));
    assert DecimalParts(text, plus, k, n);
  }

  lemma DecimalRead(text: bytes, plus: bytes, k: nat, n: nat)
    requires DecimalParts(text, plus, k, n) && n < U64_LIMIT
    ensures Pax.ParseUnsigned(text) == Some(n)
  {
    hide Value, Digits;
    var digits := Repeat(0x30, k) + Digits(n, 10);
    ValueOfDigits(n, 10);
    ValuePadded(k, Digits(n, 10), 10);
    assert text == plus + digits;
    assert digits[0] != PLUS;
    assert text[|plus|..] == digits;
  }

  // ---------------------------------------------------------------------------------------------
  // Names and sizes
  // ---------------------------------------------------------------------------------------------

  /** The bytes of a field before its first NUL. */
  predicate BeforeNul(field: bytes, text: bytes) {
    text <= field && NUL !in text && (|text| < |field| ==> field[|text|] == 0)
  }

  lemma BeforeNulIff(field: bytes, text: bytes)
    ensures UntilNul(field) == text <==> BeforeNul(field, text)
  {
    if BeforeNul(field, text) {
      IndexOfIs(field, NUL, |text|);
    }
  }

  /** A header's own path: a name, with the prefix in front of it if there is one. */
  predicate OwnPath(header: bytes, last: bytes, prefix: bytes, path: bytes)
    requires |header| == HEADER
  {
    && BeforeNul(header[..100], last) && last != [] && BeforeNul(header[345..500], prefix)
    && path == if prefix == [] then last else prefix + [0x2F] + last
  }

  ghost predicate HasPath(header: bytes, path: bytes)
    requires |header| == HEADER
  {
    exists last, prefix :: OwnPath(header, last, prefix, path)
  }

  lemma PathIff(header: bytes, path: bytes)
    requires |header| == HEADER
    ensures TarPath(header) == Ok(path) <==> HasPath(header, path)
  {
    hide UntilNul, BeforeNul;
    var last, prefix := UntilNul(header[..100]), UntilNul(header[345..500]);
    BeforeNulIff(header[..100], last);
    BeforeNulIff(header[345..500], prefix);
    if TarPath(header) == Ok(path) {
      assert OwnPath(header, last, prefix, path);
    }
    if HasPath(header, path) {
      var a, b :| OwnPath(header, a, b, path);
      BeforeNulIff(header[..100], a);
      BeforeNulIff(header[345..500], b);
    }
  }

  /** The metadata's path and size stand before the header's, which must have a path all the same. */
  ghost predicate Overridden(header: bytes, rawSize: nat, metadata: Option<Pax.Extensions>, name: bytes, size: nat)
    requires |header| == HEADER
  {
    && (exists own :: HasPath(header, own))
    && (if metadata.Some? && Text("path") in metadata.value then name == metadata.value[Text("path")]
        else HasPath(header, name))
    && (if metadata.Some? && Text("size") in metadata.value then SpellsDecimal(metadata.value[Text("size")], size)
        else size == rawSize)
  }

  lemma EffectiveIff(header: bytes, rawSize: nat, metadata: Option<Pax.Extensions>, name: bytes, size: nat)
    requires |header| == HEADER
    ensures Effective(header, rawSize, metadata) == Ok((name, size)) <==>
            Overridden(header, rawSize, metadata, name, size)
  {
    hide TarPath, HasPath, Pax.ParseUnsigned, SpellsDecimal;
    forall path ensures TarPath(header) == Ok(path) <==> HasPath(header, path) {
      PathIff(header, path);
    }
    if metadata.Some? && Pax.SIZE in metadata.value {
      DecimalIff(metadata.value[Pax.SIZE], size);
    }
  }

  /** The names an archive may use, and how large each may be: 512 MiB for the executable, 1 MiB for a text. */
  lemma NamesAndLimits(name: bytes)
    ensures IsExecutable(name) <==> name == Text("soloist") || name == Text("./soloist")
    ensures IsDocumentation(name) <==> name == Text("CHANGELOG.md") || name == Text("THIRD_PARTY_LICENSES.txt")
    ensures MaximumFor(name) == if IsExecutable(name) then 0x2000_0000 else 0x10_0000
    ensures MAX_METADATA_BYTES == 0x10_0000
  {
    hide Text;
  }
}
