/** Numbers written in a base of at most ten, as `format!` prints them and `from_str_radix` reads them. */
module Numerals {
  import opened Bytes

  const ZERO: byte := 0x30
  const PLUS: byte := 0x2B
  const U64_LIMIT: nat := 0x1_0000_0000_0000_0000

  predicate IsDigit(b: byte, base: nat) {
    ZERO <= b < ZERO + base
  }

  predicate AllDigits(s: bytes, base: nat) {
    forall i :: 0 <= i < |s| ==> IsDigit(s[i], base)
  }

  /** The shortest numeral of `n`. */
  function Digits(n: nat, base: nat): (s: bytes)
    requires 2 <= base <= 10
    ensures |s| >= 1
    ensures AllDigits(s, base)
    decreases n
  {
    if n < base then [ZERO + n] else Shrinks(n, base); Digits(n / base, base) + [ZERO + n % base]
  }

  lemma Shrinks(n: nat, base: nat)
    requires 2 <= base <= n
    ensures 0 < n / base < n
    ensures n == (n / base) * base + n % base
  {
    var q, r := n / base, n % base;
    assert n == base * q + r;
    if q > 0 {
      ScaleMonotone(2, base, q);
    }
  }

  lemma ScaleMonotone(a: nat, b: nat, k: nat)
    requires a <= b
    ensures a * k <= b * k
  {
  }

  /** The number a string of digits stands for. */
  function Value(s: bytes, base: nat): (v: nat)
    requires AllDigits(s, base)
  {
    if s == [] then 0 else Value(s[..|s| - 1], base) * base + (s[|s| - 1] - ZERO)
  }

  lemma LastDigit(k: nat, n: nat, digit: nat)
    requires digit < 10
    ensures Repeat(ZERO, k) + Digits(n, 10) + [ZERO + digit] ==
            if n == 0 then Repeat(ZERO, k + 1) + Digits(digit, 10) else Repeat(ZERO, k) + Digits(10 * n + digit, 10)
  {
    if n == 0 {
      assert Repeat(ZERO, k) + [ZERO] == Repeat(ZERO, k + 1);
    } else {
      assert (10 * n + digit) / 10 == n && (10 * n + digit) % 10 == digit;
    }
  }

  lemma ValueMore(front: bytes, digit: nat)
    requires AllDigits(front, 10) && digit < 10
    ensures AllDigits(front + [ZERO + digit], 10) && Value(front + [ZERO + digit], 10) == 10 * Value(front, 10) + digit
  {
    assert (front + [ZERO + digit])[..|front|] == front;
  }

  lemma DigitsMore(k: nat, n: nat, digit: nat) returns (m: nat)
    requires digit < 10
    ensures Repeat(ZERO, k) + Digits(n, 10) + [ZERO + digit] == Repeat(ZERO, m) + Digits(10 * n + digit, 10)
  {
    hide Digits;
    LastDigit(k, n, digit);
    m := if n == 0 then k + 1 else k;
  }

  /** Decimal digits are zeros in front of the number they stand for. */
  lemma {:induction false} DecimalDigits(s: bytes) returns (k: nat)
    requires AllDigits(s, 10) && s != []
    ensures s == Repeat(ZERO, k) + Digits(Value(s, 10), 10)
    decreases |s|
  {
    hide Digits, Value;
    var last := |s| - 1;
    assert IsDigit(s[last], 10);
    var front, digit := s[..last], s[last] - ZERO;
    assert AllDigits(front, 10);
    hide AllDigits, IsDigit;
    assert s == front + [ZERO + digit];
    ValueMore(front, digit);
    if front == [] {
      NoValue();
      OneDigit(digit);
      k := 0;
    } else {
      var j := DecimalDigits(front);
      k := DigitsMore(j, Value(front, 10), digit);
    }
  }

  lemma NoValue()
    ensures Value([], 10) == 0
  {
  }

  lemma OneDigit(digit: nat)
    requires digit < 10
    ensures Digits(digit, 10) == [ZERO + digit]
  {
  }

  function Power(base: nat, exponent: nat): nat {
    if exponent == 0 then 1 else base * Power(base, exponent - 1)
  }

  lemma {:induction false} ValueOfDigits(n: nat, base: nat)
    requires 2 <= base <= 10
    ensures Value(Digits(n, base), base) == n
    decreases n
  {
    if n < base {
      assert Digits(n, base)[..0] == [];
      assert Value([], base) == 0;
    } else {
      Shrinks(n, base);
      var s := Digits(n, base);
      assert s[..|s| - 1] == Digits(n / base, base);
      ValueOfDigits(n / base, base);
    }
  }

  /** Leading zeros do not change the number. */
  lemma {:induction false} ValuePadded(k: nat, s: bytes, base: nat)
    requires 1 <= base <= 10
    requires AllDigits(s, base)
    ensures AllDigits(Repeat(ZERO, k) + s, base)
    ensures Value(Repeat(ZERO, k) + s, base) == Value(s, base)
    decreases k, |s|
  {
    var t := Repeat(ZERO, k) + s;
    if s != [] {
      assert t[..|t| - 1] == Repeat(ZERO, k) + s[..|s| - 1];
      ValuePadded(k, s[..|s| - 1], base);
    } else if k > 0 {
      assert t[..|t| - 1] == Repeat(ZERO, k - 1) + s;
      ValuePadded(k - 1, s, base);
    }
  }

  /** A numeral has at most `k` digits exactly when the number is below base^k. */
  lemma {:induction false} DigitsLength(n: nat, base: nat, k: nat)
    requires 2 <= base <= 10
    requires k >= 1
    ensures |Digits(n, base)| <= k <==> n < Power(base, k)
    decreases n
  {
    var q, p := n / base, Power(base, k - 1);
    if n < base {
      PowerPositive(base, k - 1);
      assert base * 1 <= base * p by { ScaleMonotone(1, p, base); }
    } else {
      Shrinks(n, base);
      if k == 1 {
        assert Power(base, 1) == base * Power(base, 0) == base;
      } else {
        DigitsLength(q, base, k - 1);
        QuotientBound(n, base, p);
      }
    }
  }

  lemma {:induction false} PowerPositive(base: nat, k: nat)
    requires base >= 1
    ensures Power(base, k) >= 1
  {
    if k > 0 {
      PowerPositive(base, k - 1);
      ScaleMonotone(1, base, Power(base, k - 1));
    }
  }

  lemma QuotientBound(n: nat, base: nat, p: nat)
    requires 2 <= base
    ensures n / base < p <==> n < base * p
  {
    var q, r := n / base, n % base;
    assert n == q * base + r;
    if q < p {
      ScaleMonotone(q + 1, p, base);
      assert (q + 1) * base == q * base + base;
    } else {
      ScaleMonotone(p, q, base);
    }
  }

  lemma PowersOfEight()
    ensures Power(8, 6) == 0x4_0000
    ensures Power(8, 7) == 0x20_0000
    ensures Power(8, 8) == 0x100_0000
    ensures Power(8, 11) == 0x2_0000_0000
    ensures Power(8, 12) == 0x10_0000_0000
  {
  }
}
