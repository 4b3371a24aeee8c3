/** Numerals: the digit strings that printf.c prints and parses, and why they are the right ones. */
module Numerals {
  import opened Machine

  const NUL := '\0'

  // ---------- products and quotients, kept behind names ----------

  function Mul(a: nat, b: nat): nat {
    a * b
  }

  function Quot(n: nat, d: nat): nat
    requires d > 0
  {
    n / d
  }

  function Rem(n: nat, d: nat): (r: nat)
    requires d > 0
    ensures r < d && r <= n && (n < d ==> r == n)
  {
    n % d
  }

  lemma QuotRem(n: nat, d: nat)
    requires d > 0
    ensures n == Mul(d, Quot(n, d)) + Rem(n, d)
  {
  }

  lemma MulMonotone(d: nat, a: nat, b: nat)
    requires a <= b
    ensures Mul(d, a) <= Mul(d, b)
  {
  }

  lemma MulNext(d: nat, a: nat)
    ensures Mul(d, a + 1) == Mul(d, a) + d
  {
  }

  lemma MulCommutes(a: nat, b: nat)
    ensures Mul(a, b) == Mul(b, a)
  {
  }

  lemma MulUnits(d: nat)
    ensures Mul(d, 1) == d && Mul(d, 0) == 0 && Mul(0, d) == 0 && Mul(1, d) == d
  {
  }

  /** A quotient is below `a` exactly when the number is below `a` divisors. */
  lemma QuotBelow(n: nat, d: nat, a: nat)
    requires d > 0
    ensures Quot(n, d) < a <==> n < Mul(d, a)
  {
    hide Mul, Quot, Rem;
    var q := Quot(n, d);
    QuotRem(n, d);
    if q < a {
      MulMonotone(d, q + 1, a);
      MulNext(d, q);
    } else {
      MulMonotone(d, a, q);
    }
  }

  lemma QuotLess(n: nat, d: nat)
    requires n > 0 && d > 1
    ensures Quot(n, d) < n
  {
    hide Quot;
    QuotBelow(n, d, n);
    MulMonotone(n, 2, d);
    MulCommutes(n, d);
    MulNext(n, 1);
    MulUnits(n);
  }

  /** Quotient and remainder are the only pair that fits. */
  lemma QuotRemUnique(d: nat, q: nat, r: nat)
    requires r < d
    ensures Quot(Mul(d, q) + r, d) == q && Rem(Mul(d, q) + r, d) == r
  {
    hide Mul, Quot, Rem;
    var n := Mul(d, q) + r;
    MulNext(d, q);
    QuotBelow(n, d, q + 1);
    QuotBelow(n, d, q);
    QuotRem(n, d);
  }

  function Pow(b: nat, k: nat): nat {
    if k == 0 then 1 else Mul(b, Pow(b, k - 1))
  }

  lemma {:induction false} PowMonotone(b: nat, j: nat, k: nat)
    requires b > 0 && j <= k
    ensures 0 < Pow(b, j) <= Pow(b, k)
    decreases k
  {
    hide Mul;
    if j < k {
      PowMonotone(b, j, k - 1);
      MulMonotone(Pow(b, k - 1), 1, b);
      MulUnits(Pow(b, k - 1));
      MulCommutes(b, Pow(b, k - 1));
    } else if k > 0 {
      PowMonotone(b, k - 1, k - 1);
      MulMonotone(b, 1, Pow(b, k - 1));
      MulUnits(b);
    }
  }

  // ---------- digits ----------

  function DigitChar(v: nat, uc: bool): (ch: char)
    requires v < 16
    ensures v < 10 ==> '0' <= ch <= '9'
    ensures v >= 10 ==> if uc then 'A' <= ch <= 'F' else 'a' <= ch <= 'f'
  {
    if v < 10 then '0' + v as char else (if uc then 'A' else 'a') + (v - 10) as char
  }

  /** `a2d`: the value of a hexadecimal digit, or -1. */
  function A2d(ch: char): (v: int)
    ensures -1 <= v < 16 && (v >= 0 <==> '0' <= ch <= '9' || 'a' <= ch <= 'f' || 'A' <= ch <= 'F')
  {
    if '0' <= ch <= '9' then ch as int - '0' as int
    else if 'a' <= ch <= 'f' then ch as int - 'a' as int + 10
    else if 'A' <= ch <= 'F' then ch as int - 'A' as int + 10
    else -1
  }

  lemma DigitRoundTrip(v: nat, uc: bool)
    requires v < 16
    ensures A2d(DigitChar(v, uc)) == v && (DigitChar(v, uc) == '0' <==> v == 0) && DigitChar(v, uc) != NUL
    ensures '0' <= DigitChar(v, uc) <= '9' <==> v < 10
  {
  }

  /** Digits come in the order of their characters. */
  lemma DigitsAscend(v: nat, w: nat, uc: bool)
    requires v < w < 16
    ensures DigitChar(v, uc) < DigitChar(w, uc)
  {
  }

  ghost predicate IsDigit(c: char, base: nat, uc: bool) {
    0 <= A2d(c) < base && c == DigitChar(A2d(c), uc)
  }

  /** A string of digits of the given base, letters in the given case. */
  ghost predicate IsDigits(s: string, base: nat, uc: bool) {
    forall k | 0 <= k < |s| :: IsDigit(s[k], base, uc)
  }

  /** The number a digit string denotes, most significant digit first. */
  ghost function Value(s: string, base: nat): nat
    requires forall k | 0 <= k < |s| :: A2d(s[k]) >= 0
  {
    if s == "" then 0 else Mul(Pow(base, |s| - 1), A2d(s[0])) + Value(s[1..], base)
  }

  /** The number of digits of `n`: the least k >= 1 with n < base^k. */
  function Length(n: nat, base: nat): (k: nat)
    requires 2 <= base
    ensures k >= 1
  {
    if n < base then 1 else
    QuotLess(n, base);
    1 + Length(Quot(n, base), base)
  }

  lemma {:induction false} LengthBounds(n: nat, base: nat)
    requires 2 <= base
    ensures n < Pow(base, Length(n, base)) && (Length(n, base) > 1 ==> Pow(base, Length(n, base) - 1) <= n)
  {
    hide Mul, Quot;
    if n < base {
      assert Pow(base, 1) == Mul(base, Pow(base, 0));
      MulUnits(base);
    } else {
      QuotLess(n, base);
      var m := Quot(n, base);
      var k := Length(m, base);
      LengthBounds(m, base);
      QuotBelow(n, base, Pow(base, k));
      QuotBelow(n, base, Pow(base, k - 1));
      if k == 1 {
        assert Pow(base, 1) == Mul(base, Pow(base, 0));
        MulUnits(base);
      }
    }
  }

  /** The bounds determine the length. */
  lemma LengthUnique(n: nat, base: nat, k: nat)
    requires 2 <= base && k >= 1 && n < Pow(base, k) && (k > 1 ==> Pow(base, k - 1) <= n)
    ensures Length(n, base) == k
  {
    hide Pow, Length;
    LengthBounds(n, base);
    var l := Length(n, base);
    if l < k {
      PowMonotone(base, l, k - 1);
    } else if k < l {
      PowMonotone(base, k, l - 1);
    }
  }

  /** Exactly `k` digits of `n`. */
  function Digits(n: nat, k: nat, base: nat, uc: bool): (s: string)
    requires 2 <= base <= 16 && n < Pow(base, k)
    ensures |s| == k
    decreases k
  {
    if k == 0 then "" else
    DigitStep(n, k, base);
    [DigitChar(Quot(n, Pow(base, k - 1)), uc)] + Digits(Rem(n, Pow(base, k - 1)), k - 1, base, uc)
  }

  lemma DigitStep(n: nat, k: nat, base: nat)
    requires 2 <= base && k > 0 && n < Pow(base, k)
    ensures var d := Pow(base, k - 1); d > 0 && Quot(n, d) < base
  {
    hide Mul, Quot;
    PowMonotone(base, 0, k - 1);
    QuotBelow(n, Pow(base, k - 1), base);
    MulCommutes(base, Pow(base, k - 1));
  }

  /** The numeral of `n`: all its digits and no more. */
  function Numeral(n: nat, base: nat, uc: bool): (s: string)
    requires 2 <= base <= 16
    ensures |s| >= 1
  {
    LengthBounds(n, base);
    Digits(n, Length(n, base), base, uc)
  }

  lemma {:induction false} DigitsDenote(n: nat, k: nat, base: nat, uc: bool)
    requires 2 <= base <= 16 && n < Pow(base, k)
    ensures IsDigits(Digits(n, k, base, uc), base, uc) && Value(Digits(n, k, base, uc), base) == n
    decreases k
  {
    if k > 0 {
      DigitStep(n, k, base);
      var d := Pow(base, k - 1);
      hide Pow, Mul, Quot, Rem, DigitChar;
      var v, rest := Quot(n, d), Digits(Rem(n, d), k - 1, base, uc);
      DigitsDenote(Rem(n, d), k - 1, base, uc);
      DigitRoundTrip(v, uc);
      assert Digits(n, k, base, uc) == [DigitChar(v, uc)] + rest && ([DigitChar(v, uc)] + rest)[1..] == rest;
      QuotRem(n, d);
    }
  }

  lemma {:induction false} ValueInRange(s: string, base: nat, uc: bool)
    requires 2 <= base <= 16 && IsDigits(s, base, uc)
    ensures Value(s, base) < Pow(base, |s|) && Digits(Value(s, base), |s|, base, uc) == s
  {
    if s != "" {
      ValueInRange(s[1..], base, uc);
      assert IsDigit(s[0], base, uc) && s == [s[0]] + s[1..];
      var v, d, r := A2d(s[0]) as nat, Pow(base, |s| - 1), Value(s[1..], base);
      assert Pow(base, |s|) == Mul(base, d);
      hide Pow, Mul, Quot, Rem;
      QuotRemUnique(d, v, r);
      QuotBelow(Mul(d, v) + r, d, base);
      MulCommutes(base, d);
    }
  }

  lemma FirstDigitNonzero(n: nat, k: nat, base: nat, uc: bool)
    requires 2 <= base <= 16 && k > 1 && n < Pow(base, k)
    ensures Digits(n, k, base, uc)[0] != '0' <==> Pow(base, k - 1) <= n
  {
    DigitStep(n, k, base);
    hide Pow, Mul, Quot, Rem;
    var d := Pow(base, k - 1);
    DigitRoundTrip(Quot(n, d), uc);
    QuotBelow(n, d, 1);
    MulUnits(d);
  }

  /** The numeral denotes its number and has no redundant leading zero. */
  lemma NumeralDenotes(n: nat, base: nat, uc: bool)
    requires 2 <= base <= 16
    ensures var s := Numeral(n, base, uc);
      IsDigits(s, base, uc) && Value(s, base) == n && (|s| > 1 ==> s[0] != '0')
  {
    hide Pow, Digits, Length;
    LengthBounds(n, base);
    var k := Length(n, base);
    DigitsDenote(n, k, base, uc);
    if k > 1 {
      FirstDigitNonzero(n, k, base, uc);
    }
  }

  /** And it is the only digit string of its case that does both. */
  lemma NumeralIsUnique(n: nat, base: nat, uc: bool, s: string)
    requires 2 <= base <= 16
    ensures (s == Numeral(n, base, uc)) <==>
      (IsDigits(s, base, uc) && s != "" && Value(s, base) == n && (|s| > 1 ==> s[0] != '0'))
  {
    NumeralDenotes(n, base, uc);
    if IsDigits(s, base, uc) && s != "" && Value(s, base) == n && (|s| > 1 ==> s[0] != '0') {
      hide Pow, Digits, Length, Value, IsDigits;
      ValueInRange(s, base, uc);
      if |s| > 1 {
        FirstDigitNonzero(n, |s|, base, uc);
      }
      LengthUnique(n, base, |s|);
    }
  }

  /** Ten decimal or eight hexadecimal digits are enough for any word. */
  lemma NumeralFits(n: u32, uc: bool)
    ensures |Numeral(n, 10, uc)| <= 10 && |Numeral(n, 16, uc)| <= 8
  {
    LengthBounds(n, 10);
    LengthBounds(n, 16);
    var k, l := Length(n, 10), Length(n, 16);
    TenToTheTenth();
    hide Pow, Digits, Length;
    if k > 10 {
      PowMonotone(10, 10, k - 1);
    }
    if l > 8 {
      PowMonotone(16, 8, l - 1);
    }
  }

  lemma TenToTheTenth()
    ensures Pow(10, 10) >= 0x1_0000_0000 && Pow(16, 8) >= 0x1_0000_0000
  {
    assert Pow(10, 2) == 100;
    assert Pow(10, 4) == 10000;
    assert Pow(10, 6) == 1000000;
    assert Pow(10, 8) == 100000000;
    assert Pow(16, 2) == 0x100;
    assert Pow(16, 4) == 0x10000;
    assert Pow(16, 6) == 0x1000000;
  }
}
