/** Well-formed UTF-8 (section 4 of RFC 3629), which `std::str::from_utf8` accepts and nothing else. */
module Utf8 {
  import opened Bytes

  predicate Tail(b: byte) {
    0x80 <= b <= 0xBF
  }

  /** The length of the well-formed character at the front, or 0. */
  function CharLength(s: bytes): (n: nat)
    ensures n <= |s|
    ensures n <= 4
  {
    if s == [] then 0
    else if s[0] < 0x80 then 1
    else if 0xC2 <= s[0] <= 0xDF && |s| >= 2 && Tail(s[1]) then 2
    else if 0xE0 <= s[0] <= 0xEF && |s| >= 3 && ThreeByteSecond(s[0], s[1]) && Tail(s[2]) then 3
    else if 0xF0 <= s[0] <= 0xF4 && |s| >= 4 && FourByteSecond(s[0], s[1]) && Tail(s[2]) && Tail(s[3]) then 4
    else 0
  }

  predicate ThreeByteSecond(first: byte, second: byte) {
    if first == 0xE0 then 0xA0 <= second <= 0xBF
    else if first == 0xED then 0x80 <= second <= 0x9F
    else Tail(second)
  }

  predicate FourByteSecond(first: byte, second: byte) {
    if first == 0xF0 then 0x90 <= second <= 0xBF
    else if first == 0xF4 then 0x80 <= second <= 0x8F
    else Tail(second)
  }

  predicate Valid(s: bytes)
    decreases |s|
  {
    s == [] || (CharLength(s) > 0 && Valid(s[CharLength(s)..]))
  }

  /** A character at the front of `a` is still the character at the front of `a + b`. */
  lemma CharLengthExtends(a: bytes, b: bytes)
    requires CharLength(a) > 0
    ensures CharLength(a + b) == CharLength(a)
  {
  }

  lemma {:induction false} ValidConcat(a: bytes, b: bytes)
    requires Valid(a)
    ensures Valid(a + b) <==> Valid(b)
    decreases |a|
  {
    if a == [] {
      assert a + b == b;
    } else {
      var n := CharLength(a);
      CharLengthExtends(a, b);
      assert (a + b)[n..] == a[n..] + b;
      ValidConcat(a[n..], b);
    }
  }

  /** No character spans an ASCII byte, so text may be cut beside one. */
  lemma {:induction false} ValidBeforeAscii(a: bytes, c: byte, b: bytes)
    requires c < 0x80
    requires Valid(a + [c] + b)
    ensures Valid(a)
    decreases |a|
  {
    if a != [] {
      var s := a + [c] + b;
      var n := CharLength(s);
      assert forall i :: 0 < i < n ==> s[i] >= 0x80;
      assert s[|a|] == c;
      assert n <= |a|;
      assert CharLength(a) == n;
      assert s[n..] == a[n..] + [c] + b;
      ValidBeforeAscii(a[n..], c, b);
    }
  }

  lemma {:induction false} ValidAscii(s: bytes)
    requires forall i :: 0 <= i < |s| ==> s[i] < 0x80
    ensures Valid(s)
    decreases |s|
  {
    if s != [] {
      ValidAscii(s[1..]);
    }
  }

  /** Text with an ASCII byte in it is well formed exactly when both sides of that byte are. */
  lemma ValidAroundAscii(a: bytes, c: byte, b: bytes)
    requires c < 0x80
    ensures Valid(a + [c] + b) <==> Valid(a) && Valid(b)
  {
    ValidAscii([c]);
    if Valid(a + [c] + b) {
      ValidBeforeAscii(a, c, b);
    }
    if Valid(a) {
      ValidConcat(a, [c]);
      ValidConcat(a + [c], b);
    }
  }

  /** `char::is_control`: the C0 characters, DEL, and U+0080 to U+009F, whose encodings begin with C2. */
  predicate HasControl(s: bytes) {
    exists i :: 0 <= i < |s| && ControlAt(s, i)
  }

  predicate ControlAt(s: bytes, i: nat)
    requires i < |s|
  {
    s[i] < 0x20 || s[i] == 0x7F || (s[i] == 0xC2 && i + 1 < |s| && 0x80 <= s[i + 1] <= 0x9F)
  }

  // ---------------------------------------------------------------------------------------------
  // Characters
  // ---------------------------------------------------------------------------------------------

  /** A Unicode scalar value: what `char` holds. */
  type scalar = c: nat | c < 0xD800 || 0xE000 <= c < 0x11_0000 witness 0

  /** The encoding of one character, as the table in section 3 of RFC 3629 gives it. */
  function Encode(c: scalar): (s: bytes)
    ensures 1 <= |s| <= 4
  {
    if c < 0x80 then [c]
    else if c < 0x800 then [0xC0 + c / 0x40, 0x80 + c % 0x40]
    else if c < 0x1_0000 then [0xE0 + c / 0x1000, 0x80 + c / 0x40 % 0x40, 0x80 + c % 0x40]
    else [0xF0 + c / 0x4_0000, 0x80 + c / 0x1000 % 0x40, 0x80 + c / 0x40 % 0x40, 0x80 + c % 0x40]
  }

  function EncodeAll(cs: seq<scalar>): bytes {
    if cs == [] then [] else Encode(cs[0]) + EncodeAll(cs[1..])
  }

  predicate IsControl(c: scalar) {
    c <= 0x1F || 0x7F <= c <= 0x9F
  }

  lemma EncodedLength(c: scalar, rest: bytes)
    ensures CharLength(Encode(c) + rest) == |Encode(c)|
  {
    EncodedFront(c);
    CharLengthExtends(Encode(c), rest);
  }

  lemma EncodedFront(c: scalar)
    ensures CharLength(Encode(c)) == |Encode(c)|
  {
    if c < 0x800 {
    } else if c < 0x1_0000 {
      ThreeRanges(c);
    } else {
      FourRanges(c);
    }
  }

  lemma ThreeRanges(c: scalar)
    requires 0x800 <= c < 0x1_0000
    ensures 0xE0 <= 0xE0 + c / 0x1000 <= 0xEF && ThreeByteSecond(0xE0 + c / 0x1000, 0x80 + c / 0x40 % 0x40)
  {
    var front := c / 0x40;
    assert front / 0x40 == c / 0x1000;
  }

  lemma FourRanges(c: scalar)
    requires 0x1_0000 <= c
    ensures 0xF0 <= 0xF0 + c / 0x4_0000 <= 0xF4 && FourByteSecond(0xF0 + c / 0x4_0000, 0x80 + c / 0x1000 % 0x40)
  {
    var front := c / 0x1000;
    assert front / 0x40 == c / 0x4_0000;
  }

  lemma SixBits(front: nat, last: nat)
    requires last < 0x40
    ensures var c := front * 0x40 + last; c / 0x40 == front && c % 0x40 == last
    ensures var c := front * 0x40 + last; c / 0x1000 == front / 0x40 && c / 0x4_0000 == front / 0x1000
  {
  }

  lemma FrontEncoded(s: bytes) returns (c: scalar)
    requires CharLength(s) > 0
    ensures s[..CharLength(s)] == Encode(c)
  {
    var n := CharLength(s);
    if n == 1 {
      c := s[0];
    } else if n == 2 {
      c := TwoEncoded(s[..2]);
    } else if n == 3 {
      c := ThreeEncoded(s[..3]);
    } else {
      c := FourEncoded(s[..4]);
    }
  }

  lemma TwoEncoded(s: bytes) returns (c: scalar)
    requires |s| == 2 && 0xC2 <= s[0] <= 0xDF && Tail(s[1])
    ensures s == Encode(c)
  {
    var front: int, last: int := s[0] - 0xC0, s[1] - 0x80;
    SixBits(front, last);
    c := front * 0x40 + last;
  }

  lemma ThreeEncoded(s: bytes) returns (c: scalar)
    requires |s| == 3 && 0xE0 <= s[0] <= 0xEF && ThreeByteSecond(s[0], s[1]) && Tail(s[2])
    ensures s == Encode(c)
  {
    var first: int, second: int, last: int := s[0] - 0xE0, s[1] - 0x80, s[2] - 0x80;
    var front := first * 0x40 + second;
    SixBits(first, second);
    SixBits(front, last);
    c := front * 0x40 + last;
  }

  lemma FourEncoded(s: bytes) returns (c: scalar)
    requires |s| == 4 && 0xF0 <= s[0] <= 0xF4 && FourByteSecond(s[0], s[1]) && Tail(s[2]) && Tail(s[3])
    ensures s == Encode(c)
  {
    var first: int, second: int, third: int, last: int := s[0] - 0xF0, s[1] - 0x80, s[2] - 0x80, s[3] - 0x80;
    var high := first * 0x40 + second;
    var front := high * 0x40 + third;
    SixBits(first, second);
    SixBits(high, third);
    SixBits(front, last);
    c := front * 0x40 + last;
  }

  lemma {:induction false} EncodedValid(cs: seq<scalar>)
    ensures Valid(EncodeAll(cs))
  {
    hide CharLength, Encode;
    if cs != [] {
      EncodedLength(cs[0], EncodeAll(cs[1..]));
      EncodedValid(cs[1..]);
      assert EncodeAll(cs)[|Encode(cs[0])|..] == EncodeAll(cs[1..]);
    }
  }

  lemma {:induction false} ValidEncoded(s: bytes) returns (cs: seq<scalar>)
    requires Valid(s)
    ensures s == EncodeAll(cs)
    decreases |s|
  {
    hide CharLength, Encode;
    if s == [] {
      cs := [];
    } else {
      var c := FrontEncoded(s);
      var rest := ValidEncoded(s[CharLength(s)..]);
      cs := [c] + rest;
      assert cs[1..] == rest;
      assert s == s[..CharLength(s)] + s[CharLength(s)..];
    }
  }

  /** Bytes are well formed exactly when they encode characters. */
  lemma ValidIff(s: bytes)
    ensures Valid(s) <==> exists cs :: s == EncodeAll(cs)
  {
    hide Valid, EncodeAll;
    if Valid(s) {
      var cs := ValidEncoded(s);
    }
    if exists cs :: s == EncodeAll(cs) {
      var cs :| s == EncodeAll(cs);
      EncodedValid(cs);
    }
  }

  lemma EncodedControl(c: scalar, rest: bytes)
    ensures (exists i :: 0 <= i < |Encode(c)| && ControlAt(Encode(c) + rest, i)) <==> IsControl(c)
  {
    var s := Encode(c) + rest;
    assert forall i :: 0 <= i < |Encode(c)| ==> s[i] == Encode(c)[i];
    if IsControl(c) {
      assert ControlAt(s, 0);
    }
  }

  /** A text holds a control character exactly when one of its characters is one. */
  lemma {:induction false} ControlIff(cs: seq<scalar>)
    ensures HasControl(EncodeAll(cs)) <==> exists c :: c in cs && IsControl(c)
  {
    hide Encode, IsControl;
    if cs != [] {
      var s, head, rest := EncodeAll(cs), Encode(cs[0]), EncodeAll(cs[1..]);
      EncodedControl(cs[0], rest);
      ControlIff(cs[1..]);
      assert forall i :: |head| <= i < |s| ==> (ControlAt(s, i) <==> ControlAt(rest, i - |head|));
      assert forall i :: 0 <= i < |rest| && ControlAt(rest, i) ==> ControlAt(s, i + |head|);
      assert forall c :: c in cs <==> c == cs[0] || c in cs[1..];
    }
  }
}
