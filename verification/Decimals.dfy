/** Decimal texts as the standard library parses them. */
module Decimals {
  import opened Wrappers
  import Numerals

  const I32_LIMIT := 0x8000_0000

  predicate IsDigits(text: string) {
    text != [] && forall i :: 0 <= i < |text| ==> '0' <= text[i] <= '9'
  }

  function DecimalValue(digits: string): nat
    requires forall i :: 0 <= i < |digits| ==> '0' <= digits[i] <= '9'
  {
    if digits == [] then 0
    else
      var last: nat := digits[|digits| - 1] as int - '0' as int;
      DecimalValue(digits[..|digits| - 1]) * 10 + last
  }

  /** What `parse::<u64>` accepts. */
  predicate IsU64(text: string) {
    var digits := if text != [] && text[0] == '+' then text[1..] else text;
    IsDigits(digits) && DecimalValue(digits) < Numerals.U64_LIMIT
  }

  /** `parse::<i32>`. */
  function ParseI32(text: string): Option<int> {
    var signed := text != [] && (text[0] == '+' || text[0] == '-');
    var digits := if signed then text[1..] else text;
    if !IsDigits(digits) then None
    else
      var value: int := if signed && text[0] == '-' then 0 - DecimalValue(digits) else DecimalValue(digits);
      if -I32_LIMIT <= value < I32_LIMIT then Some(value) else None
  }

  // ---------------------------------------------------------------------------------------------
  // Numbers as they are printed
  // ---------------------------------------------------------------------------------------------

  function DigitChar(digit: nat): char
    requires digit < 10
  {
    ('0' as int + digit) as char
  }

  /** A number without a sign or leading zeros. */
  function NatText(n: nat): (text: string)
    ensures IsDigits(text)
  {
    if n < 10 then [DigitChar(n)] else NatText(n / 10) + [DigitChar(n % 10)]
  }

  function IntText(n: int): string {
    if n < 0 then "-" + NatText(-n) else NatText(n)
  }

  function Zeros(k: nat): (text: string)
    ensures |text| == k && forall i :: 0 <= i < k ==> text[i] == '0'
  {
    seq(k, _ => '0')
  }

  /** A number with a sign, which only a negative one needs, and any number of leading zeros. */
  predicate Spells(text: string, sign: string, k: nat, n: int) {
    && (sign == "" || sign == "+" || sign == "-") && (n < 0 ==> sign == "-") && (n > 0 ==> sign != "-")
    && text == sign + Zeros(k) + NatText(if n < 0 then -n else n)
  }

  lemma {:induction false} NatTextValue(k: nat, n: nat)
    ensures var text := Zeros(k) + NatText(n); IsDigits(text) && DecimalValue(text) == n
    decreases n
  {
    var text := Zeros(k) + NatText(n);
    if n < 10 {
      ZerosValue(k);
      assert text[..|text| - 1] == Zeros(k);
    } else {
      NatTextValue(k, n / 10);
      assert text[..|text| - 1] == Zeros(k) + NatText(n / 10);
    }
  }

  lemma {:induction false} ZerosValue(k: nat)
    ensures DecimalValue(Zeros(k)) == 0
  {
    if k > 0 {
      ZerosValue(k - 1);
      assert Zeros(k)[..k - 1] == Zeros(k - 1);
    }
  }

  lemma LastDigit(k: nat, n: nat, digit: nat)
    requires digit < 10
    ensures Zeros(k) + NatText(n) + [DigitChar(digit)] ==
            if n == 0 then Zeros(k + 1) + NatText(digit) else Zeros(k) + NatText(10 * n + digit)
  {
    if n == 0 {
      assert Zeros(k) + "0" == Zeros(k + 1);
    } else {
      assert (10 * n + digit) / 10 == n && (10 * n + digit) % 10 == digit;
    }
  }

  /** Digits are zeros in front of the number they stand for. */
  lemma {:induction false} DigitsSpelt(digits: string) returns (k: nat)
    requires IsDigits(digits)
    ensures digits == Zeros(k) + NatText(DecimalValue(digits))
  {
    hide NatText;
    var front, digit := digits[..|digits| - 1], digits[|digits| - 1] as int - '0' as int;
    assert digits == front + [DigitChar(digit)];
    if front == [] {
      k := 0;
      OneDigit(digit);
    } else {
      k := DigitsSpelt(front);
      LastDigit(k, DecimalValue(front), digit);
      if DecimalValue(front) == 0 {
        k := k + 1;
      }
    }
  }

  lemma OneDigit(digit: nat)
    requires digit < 10
    ensures [DigitChar(digit)] == Zeros(0) + NatText(digit)
  {
  }

  lemma UnsignedParses(digits: string)
    requires IsDigits(digits)
    ensures ParseI32(digits) == if DecimalValue(digits) < I32_LIMIT then Some(DecimalValue(digits)) else None
  {
    hide DecimalValue;
    assert digits[0] != '+' && digits[0] != '-';
  }

  lemma SignedParses(sign: char, digits: string)
    requires IsDigits(digits) && (sign == '+' || sign == '-')
    ensures var value: int := if sign == '-' then 0 - DecimalValue(digits) else DecimalValue(digits);
            ParseI32([sign] + digits) == if -I32_LIMIT <= value < I32_LIMIT then Some(value) else None
  {
    hide DecimalValue;
    var text := [sign] + digits;
    assert text[0] == sign && text[1..] == digits;
    hide IsDigits;
  }

  lemma SpeltParses(text: string, sign: string, k: nat, n: int)
    requires Spells(text, sign, k, n)
    ensures ParseI32(text) == if -0x8000_0000 <= n <= 0x7FFF_FFFF then Some(n) else None
  {
    hide NatText, DecimalValue, ParseI32, IsDigits;
    var size := if n < 0 then -n else n;
    var digits := Zeros(k) + NatText(size);
    NatTextValue(k, size);
    if sign == "" {
      assert text == digits;
      UnsignedParses(digits);
    } else {
      assert text == [sign[0]] + digits;
      SignedParses(sign[0], digits);
    }
  }

  lemma ParsedDigits(text: string)
    requires ParseI32(text).Some?
    ensures text != [] && IsDigits(if text[0] == '+' || text[0] == '-' then text[1..] else text)
  {
    hide DecimalValue;
  }

  lemma ParsedSpelt(text: string) returns (sign: string, k: nat)
    requires ParseI32(text).Some?
    ensures Spells(text, sign, k, ParseI32(text).value)
  {
    hide NatText, DecimalValue, ParseI32, IsDigits, Spells;
    ParsedDigits(text);
    if text[0] == '+' || text[0] == '-' {
      sign := [text[0]];
      assert text == [text[0]] + text[1..];
      k := SignedSpelt(text[0], text[1..]);
    } else {
      sign := "";
      k := UnsignedSpelt(text);
    }
  }

  lemma SignedSpelt(sign: char, digits: string) returns (k: nat)
    requires IsDigits(digits) && (sign == '+' || sign == '-') && ParseI32([sign] + digits).Some?
    ensures Spells([sign] + digits, [sign], k, ParseI32([sign] + digits).value)
  {
    hide NatText, DecimalValue, ParseI32;
    SignedParses(sign, digits);
    k := DigitsSpelt(digits);
    hide IsDigits;
    assert [sign] + (Zeros(k) + NatText(DecimalValue(digits))) == [sign] + Zeros(k) + NatText(DecimalValue(digits));
  }

  lemma UnsignedSpelt(digits: string) returns (k: nat)
    requires IsDigits(digits) && ParseI32(digits).Some?
    ensures Spells(digits, "", k, ParseI32(digits).value)
  {
    hide NatText, DecimalValue, ParseI32;
    UnsignedParses(digits);
    k := DigitsSpelt(digits);
    hide IsDigits;
    assert "" + Zeros(k) == Zeros(k);
  }

  /** A text is parsed as a number exactly when it spells it and 32 bits hold it. */
  lemma ParseI32Iff(text: string, n: int)
    ensures ParseI32(text) == Some(n) <==>
              -0x8000_0000 <= n <= 0x7FFF_FFFF && exists sign, k :: Spells(text, sign, k, n)
  {
    hide Spells, ParseI32;
    if ParseI32(text) == Some(n) {
      var sign, k := ParsedSpelt(text);
      InRange(text);
    }
    if exists sign, k :: Spells(text, sign, k, n) {
      var sign, k: nat :| Spells(text, sign, k, n);
      SpeltParses(text, sign, k, n);
    }
  }

  lemma InRange(text: string)
    ensures ParseI32(text).Some? ==> -0x8000_0000 <= ParseI32(text).value <= 0x7FFF_FFFF
  {
    hide DecimalValue;
  }

  lemma IntTextParses(n: int)
    ensures ParseI32(IntText(n)) == if -0x8000_0000 <= n <= 0x7FFF_FFFF then Some(n) else None
  {
    hide NatText, ParseI32;
    assert Zeros(0) == "";
    SpeltParses(IntText(n), if n < 0 then "-" else "", 0, n);
  }

  /** A text is a number of 64 bits exactly when it spells it without a minus sign. */
  lemma U64Iff(text: string)
    ensures IsU64(text) <==> exists n :: 0 <= n <= 0xFFFF_FFFF_FFFF_FFFF && SpellsUnsigned(text, n)
  {
    if IsU64(text) {
      var n := U64Spelt(text);
    }
    if exists n :: 0 <= n <= 0xFFFF_FFFF_FFFF_FFFF && SpellsUnsigned(text, n) {
      var n :| 0 <= n <= 0xFFFF_FFFF_FFFF_FFFF && SpellsUnsigned(text, n);
      SpeltIsU64(text, n);
    }
  }

  ghost predicate SpellsUnsigned(text: string, n: nat) {
    exists sign, k :: sign != "-" && Spells(text, sign, k, n)
  }

  lemma U64Digits(text: string)
    requires IsU64(text)
    ensures text != [] && IsDigits(if text[0] == '+' then text[1..] else text)
    ensures DecimalValue(if text[0] == '+' then text[1..] else text) <= 0xFFFF_FFFF_FFFF_FFFF
  {
    hide DecimalValue;
  }

  lemma U64Spelt(text: string) returns (n: nat)
    requires IsU64(text)
    ensures n <= 0xFFFF_FFFF_FFFF_FFFF && SpellsUnsigned(text, n)
  {
    hide NatText, DecimalValue, IsDigits, IsU64, SpellsUnsigned;
    U64Digits(text);
    if text[0] == '+' {
      n := DigitsSpell(text, "+", text[1..]);
    } else {
      n := DigitsSpell(text, "", text);
    }
  }

  lemma DigitsSpell(text: string, sign: string, digits: string) returns (n: nat)
    requires IsDigits(digits) && text == sign + digits && (sign == "" || sign == "+")
    ensures n == DecimalValue(digits) && SpellsUnsigned(text, n)
  {
    hide NatText, DecimalValue, SpellsUnsigned;
    n := DecimalValue(digits);
    var k := DigitsSpelt(digits);
    hide IsDigits;
    assert text == sign + Zeros(k) + NatText(n);
    SpeltSo(text, sign, k, n);
  }

  lemma SpeltSo(text: string, sign: string, k: nat, n: nat)
    requires (sign == "" || sign == "+") && text == sign + Zeros(k) + NatText(n)
    ensures SpellsUnsigned(text, n)
  {
    hide NatText;
    assert Spells(text, sign, k, n);
  }

  lemma SpeltIsU64(text: string, n: nat)
    requires n <= 0xFFFF_FFFF_FFFF_FFFF && SpellsUnsigned(text, n)
    ensures IsU64(text)
  {
    hide NatText, DecimalValue;
    var sign, k: nat :| sign != "-" && Spells(text, sign, k, n);
    NatTextValue(k, n);
    var digits := Zeros(k) + NatText(n);
    assert text == sign + digits;
    if sign == "" {
      assert text == digits && digits[0] != '+';
    } else {
      assert text[1..] == digits;
    }
  }
}
