/** Extended metadata ("pax Extended Header" of `pax`, IEEE Std 1003.1-2017): records that state their own length. */
module Pax {
  import opened Wrappers
  import opened Bytes
  import opened Numerals
  import Utf8

  const EQUALS: byte := 0x3D
  const NEWLINE: byte := 0x0A

  const PATH: bytes := Text("path")
  const SIZE: bytes := Text("size")
  const PERMITTED: set<bytes> := {PATH, SIZE, Text("mtime"), Text("atime"), Text("ctime")}

  datatype PaxError = Malformed | InvalidText | Unsupported

  type Extensions = map<bytes, bytes>

  /** `str::parse` for `u64` and `usize`: digits after an optional plus sign. */
  function ParseUnsigned(text: bytes): Option<nat> {
    var digits := if text != [] && text[0] == PLUS then text[1..] else text;
    if digits == [] || !AllDigits(digits, 10) then None
    else if Value(digits, 10) >= U64_LIMIT then None
    else Some(Value(digits, 10))
  }

  datatype Record = Record(sizeText: bytes, key: bytes, value: bytes)

  /** The record at `offset`, and where it ends. */
  function ParseRecord(payload: bytes, offset: nat): (r: Result<(Record, nat), PaxError>)
    requires offset < |payload|
    ensures r.Ok? ==> offset < r.value.1 <= |payload|
  {
    var space := offset + IndexOf(payload[offset..], SPACE);
    if space == |payload| then Err(Malformed)
    else
      var sizeText := payload[offset..space];
      var size := ParseUnsigned(sizeText);
      if size.None? || offset + size.value > |payload| then Err(Malformed)
      else
        var end := offset + size.value;
        if size.value <= space - offset + 2 || payload[end - 1] != NEWLINE then Err(Malformed)
        else
          var (key, value) :- ParseKeyValue(payload[space + 1..end - 1]);
          Ok((Record(sizeText, key, value), end))
  }

  function ParseKeyValue(record: bytes): (r: Result<(bytes, bytes), PaxError>)
    ensures r.Ok? ==> record == r.value.0 + [EQUALS] + r.value.1
  {
    var equals := IndexOf(record, EQUALS);
    if equals == |record| then Err(Malformed)
    else
      var key, value := record[..equals], record[equals + 1..];
      if !Utf8.Valid(key) || !Utf8.Valid(value) then Err(InvalidText) else Ok((key, value))
  }

  function ParseFrom(payload: bytes, offset: nat, extensions: Extensions): Result<Extensions, PaxError>
    requires offset <= |payload|
    decreases |payload| - offset
  {
    if offset == |payload| then Ok(extensions)
    else
      var (record, end) :- ParseRecord(payload, offset);
      if record.key !in PERMITTED || record.key in extensions then Err(Unsupported)
      else ParseFrom(payload, end, extensions[record.key := record.value])
  }

  function ParsePax(payload: bytes): Result<Extensions, PaxError> {
    ParseFrom(payload, 0, map[])
  }

  /** `parse_pax`: the offset strictly advances, so the loop ends on every payload. */
  method ReadPax(payload: bytes) returns (r: Result<Extensions, PaxError>)
    ensures r == ParsePax(payload)
  {
    var extensions: Extensions := map[];
    var offset := 0;
    while offset < |payload|
      invariant 0 <= offset <= |payload|
      invariant ParsePax(payload) == ParseFrom(payload, offset, extensions)
      decreases |payload| - offset
    {
      var record := ParseRecord(payload, offset);
      if record.Err? {
        return Err(record.error);
      }
      var (parsed, end) := record.value;
      if parsed.key !in PERMITTED || parsed.key in extensions {
        return Err(Unsupported);
      }
      extensions := extensions[parsed.key := parsed.value];
      offset := end;
    }
    return Ok(extensions);
  }

  // ---------------------------------------------------------------------------------------------
  // The format
  // ---------------------------------------------------------------------------------------------

  function Encode(r: Record): bytes {
    r.sizeText + [SPACE] + r.key + [EQUALS] + r.value + [NEWLINE]
  }

  /** A record that states its own length, for a permitted key and any text. */
  predicate WellFormed(r: Record) {
    && ParseUnsigned(r.sizeText) == Some(|Encode(r)|)
    && r.key in PERMITTED
    && Utf8.Valid(r.value)
  }

  function EncodeAll(rs: seq<Record>): bytes {
    if rs == [] then [] else Encode(rs[0]) + EncodeAll(rs[1..])
  }

  /** Well-formed records whose keys differ from each other and from those already met. */
  predicate Fresh(rs: seq<Record>, extensions: Extensions) {
    rs == [] || (WellFormed(rs[0]) && rs[0].key !in extensions && Fresh(rs[1..], extensions[rs[0].key := rs[0].value]))
  }

  function Meaning(rs: seq<Record>, extensions: Extensions): Extensions {
    if rs == [] then extensions else Meaning(rs[1..], extensions[rs[0].key := rs[0].value])
  }

  lemma LetterText(name: string)
    requires |name| >= 4 && forall i :: 0 <= i < |name| ==> 'a' <= name[i] <= 'z'
    ensures Utf8.Valid(Text(name)) && EQUALS !in Text(name) && |Text(name)| >= 4
  {
    hide Utf8.Valid;
    assert forall i :: 0 <= i < |Text(name)| ==> 0x61 <= Text(name)[i] <= 0x7A;
    Utf8.ValidAscii(Text(name));
  }

  lemma PermittedText(key: bytes)
    requires key in PERMITTED
    ensures Utf8.Valid(key) && EQUALS !in key && |key| >= 4
  {
    hide Utf8.Valid, Text;
    assert key == PATH || key == SIZE || key == Text("mtime") || key == Text("atime") || key == Text("ctime");
    LetterText("path");
    LetterText("size");
    LetterText("mtime");
    LetterText("atime");
    LetterText("ctime");
  }

  lemma SizeTextPlain(text: bytes)
    requires ParseUnsigned(text).Some?
    ensures SPACE !in text
  {
    var digits := if text[0] == PLUS then text[1..] else text;
    assert AllDigits(digits, 10);
    assert forall i :: 0 <= i < |text| ==> text[i] == PLUS || IsDigit(text[i], 10) by {
      if text[0] == PLUS {
        assert forall i :: 1 <= i < |text| ==> text[i] == digits[i - 1];
      }
    }
  }

  /** Where the parts of a record lie. */
  lemma RecordLayout(before: bytes, r: Record, after: bytes)
    requires SPACE !in r.sizeText && EQUALS !in r.key
    ensures var payload := before + Encode(r) + after;
            var space, end := |before| + |r.sizeText|, |before| + |Encode(r)|;
            && |payload| >= end && end >= space + 3
            && IndexOf(payload[|before|..], SPACE) == |r.sizeText|
            && payload[|before|..space] == r.sizeText && payload[end - 1] == NEWLINE
            && payload[space + 1..end - 1] == r.key + [EQUALS] + r.value
  {
    var payload := before + Encode(r) + after;
    var body := r.key + [EQUALS] + r.value;
    var rest := [SPACE] + body + [NEWLINE];
    assert Encode(r) == r.sizeText + rest;
    hide Encode;
    assert payload[|before|..] == r.sizeText + (rest + after);
    IndexOfIs(payload[|before|..], SPACE, |r.sizeText|);
    SixParts(before, r.sizeText, [SPACE], body, [NEWLINE], after);
    assert payload == before + r.sizeText + [SPACE] + body + [NEWLINE] + after;
  }

  lemma SixParts(a: bytes, b: bytes, c: bytes, d: bytes, e: bytes, f: bytes)
    ensures var whole := a + b + c + d + e + f;
            && whole[|a|..|a| + |b|] == b
            && whole[|a| + |b| + |c|..|a| + |b| + |c| + |d|] == d
            && whole == a + (b + (c + d + e)) + f
  {
  }

  lemma KeyValueRoundTrip(key: bytes, value: bytes)
    requires EQUALS !in key && Utf8.Valid(key) && Utf8.Valid(value)
    ensures ParseKeyValue(key + [EQUALS] + value) == Ok((key, value))
  {
    hide Utf8.Valid;
    var record := key + [EQUALS] + value;
    IndexOfIs(record, EQUALS, |key|);
    assert record[..|key|] == key && record[|key| + 1..] == value;
  }

  lemma RecordFacts(r: Record)
    requires WellFormed(r)
    ensures ParseUnsigned(r.sizeText) == Some(|Encode(r)|) && |Encode(r)| > |r.sizeText| + 2
    ensures SPACE !in r.sizeText && EQUALS !in r.key && Utf8.Valid(r.key) && Utf8.Valid(r.value)
  {
    PermittedText(r.key);
    SizeTextPlain(r.sizeText);
    EncodeLength(r);
  }

  /** A well-formed record is parsed back, wherever it stands. */
  lemma RecordRoundTrip(before: bytes, r: Record, after: bytes)
    requires WellFormed(r)
    ensures var payload := before + Encode(r) + after;
            ParseRecord(payload, |before|) == Ok((r, |before| + |Encode(r)|))
  {
    hide ParseUnsigned, Utf8.Valid, Encode, WellFormed, ParseKeyValue;
    RecordFacts(r);
    RecordLayout(before, r, after);
    KeyValueRoundTrip(r.key, r.value);
  }

  lemma EncodeLength(r: Record)
    ensures |Encode(r)| == |r.sizeText| + |r.key| + |r.value| + 3
  {
  }

  /** A parsed record is a well-formed one, if its key is permitted, and it is what stands there. */
  lemma RecordSound(payload: bytes, offset: nat)
    requires offset < |payload| && ParseRecord(payload, offset).Ok?
    ensures var (r, end) := ParseRecord(payload, offset).value;
            payload[offset..end] == Encode(r) && (r.key in PERMITTED ==> WellFormed(r))
  {
    hide ParseUnsigned, Utf8.Valid, ParseKeyValue;
    var (r, end) := ParseRecord(payload, offset).value;
    var space := offset + |r.sizeText|;
    var record := payload[space + 1..end - 1];
    ParsedText(record);
    SlicesJoin(payload, offset, space, end);
    EncodeLength(r);
  }

  lemma SlicesJoin(payload: bytes, offset: nat, space: nat, end: nat)
    requires offset <= space < end - 1 && end <= |payload|
    ensures payload[offset..end] == payload[offset..space] + [payload[space]] + payload[space + 1..end - 1]
            + [payload[end - 1]]
  {
  }

  lemma ParsedText(record: bytes)
    requires ParseKeyValue(record).Ok?
    ensures Utf8.Valid(ParseKeyValue(record).value.1)
  {
    hide Utf8.Valid;
  }

  lemma {:induction false} ParseEncoded(before: bytes, rs: seq<Record>, extensions: Extensions)
    requires Fresh(rs, extensions)
    ensures ParseFrom(before + EncodeAll(rs), |before|, extensions) == Ok(Meaning(rs, extensions))
    decreases |rs|
  {
    hide ParseRecord, WellFormed, Encode;
    if rs == [] {
      assert before + EncodeAll(rs) == before;
    } else {
      var r := rs[0];
      var rest := EncodeAll(rs[1..]);
      assert before + EncodeAll(rs) == before + Encode(r) + rest;
      RecordRoundTrip(before, r, rest);
      assert r.key in PERMITTED by {
        KeyPermitted(r);
      }
      ParseEncoded(before + Encode(r), rs[1..], extensions[r.key := r.value]);
      EncodeLength(r);
    }
  }

  lemma KeyPermitted(r: Record)
    requires WellFormed(r)
    ensures r.key in PERMITTED
  {
  }

  lemma {:induction false} ParsedIsEncoded(payload: bytes, offset: nat, extensions: Extensions)
    returns (rs: seq<Record>)
    requires offset <= |payload| && ParseFrom(payload, offset, extensions).Ok?
    ensures EncodeAll(rs) == payload[offset..] && Fresh(rs, extensions)
    ensures ParseFrom(payload, offset, extensions) == Ok(Meaning(rs, extensions))
    decreases |payload| - offset
  {
    hide ParseRecord, WellFormed, Encode;
    if offset == |payload| {
      rs := [];
    } else {
      var (r, end) := ParseRecord(payload, offset).value;
      RecordSound(payload, offset);
      var rest := ParsedIsEncoded(payload, end, extensions[r.key := r.value]);
      rs := [r] + rest;
      assert rs[1..] == rest;
      assert payload[offset..] == payload[offset..end] + payload[end..];
    }
  }

  /**
   The parser accepts exactly the concatenations of well-formed records with distinct permitted keys, and returns their
   map.
   */
  lemma PaxRoundTrip(payload: bytes, extensions: Extensions)
    ensures ParsePax(payload) == Ok(extensions) <==>
            exists rs :: Fresh(rs, map[]) && EncodeAll(rs) == payload && Meaning(rs, map[]) == extensions
  {
    if ParsePax(payload) == Ok(extensions) {
      var rs := ParsedIsEncoded(payload, 0, map[]);
      assert payload[0..] == payload;
    }
    if rs :| Fresh(rs, map[]) && EncodeAll(rs) == payload && Meaning(rs, map[]) == extensions {
      ParseEncoded([], rs, map[]);
      assert [] + EncodeAll(rs) == payload;
    }
  }

  // ---------------------------------------------------------------------------------------------
  // Self-stated lengths
  // ---------------------------------------------------------------------------------------------

  /** The length of a record whose size field holds the numeral of `length`. */
  function LengthWith(key: bytes, value: bytes, length: nat): nat {
    |Digits(length, 10)| + |key| + |value| + 3
  }

  predicate SelfConsistent(key: bytes, value: bytes, length: nat) {
    LengthWith(key, value, length) == length
  }

  lemma {:induction false} DigitsMonotone(m: nat, n: nat)
    requires m <= n
    ensures |Digits(m, 10)| <= |Digits(n, 10)|
    decreases n
  {
    if m >= 10 {
      DigitsMonotone(m / 10, n / 10);
    }
  }

  lemma {:induction false} DigitsShort(n: nat)
    requires n >= 1
    ensures |Digits(n, 10)| <= n
    decreases n
  {
    if n >= 10 {
      DigitsShort(n / 10);
    }
  }

  /** The bound below which the encoder's lengths stay. */
  lemma LengthBound(key: bytes, value: bytes)
    ensures var bound := 10 * (|key| + |value| + 3); LengthWith(key, value, bound) <= bound
  {
    var rest := |key| + |value| + 3;
    assert (10 * rest) / 10 == rest;
    DigitsShort(rest);
  }

  /** `pax_record`: repeated correction of the length reaches the least one that is its own record's length. */
  method EncodeRecord(key: bytes, value: bytes) returns (record: bytes, length: nat)
    ensures SelfConsistent(key, value, length)
    ensures forall l :: SelfConsistent(key, value, l) ==> length <= l
    ensures record == Encode(Record(Digits(length, 10), key, value)) && |record| == length
  {
    ghost var bound := 10 * (|key| + |value| + 3);
    LengthBound(key, value);
    length := |key| + |value| + 4;
    while true
      invariant length <= bound && length <= LengthWith(key, value, length)
      invariant forall l :: SelfConsistent(key, value, l) ==> length <= l
      decreases bound - length
    {
      record := Encode(Record(Digits(length, 10), key, value));
      assert |record| == LengthWith(key, value, length);
      if |record| == length {
        return;
      }
      DigitsMonotone(length, |record|);
      DigitsMonotone(length, bound);
      forall l | SelfConsistent(key, value, l) ensures |record| <= l {
        DigitsMonotone(length, l);
      }
      length := |record|;
    }
  }

  /** What the encoder writes for a permitted key and any text is a well-formed record. */
  lemma EncodedWellFormed(key: bytes, value: bytes, length: nat)
    requires key in PERMITTED && Utf8.Valid(value)
    requires SelfConsistent(key, value, length) && length < U64_LIMIT
    ensures WellFormed(Record(Digits(length, 10), key, value))
  {
    ValueOfDigits(length, 10);
    assert Digits(length, 10)[0] != PLUS;
  }
}
