/** printf.c: printing numbers, parsing widths, and the format interpreter. */
module Formats {
  import opened Machine
  import opened Numerals

  // ---------- a2i ----------

  /** The character at position `i` of a C string, whose end reads as NUL. */
  function At(text: string, i: nat): char {
    if i < |text| then text[i] else NUL
  }

  /** What `a2i` takes for a digit: its test lets a digit equal to the base through. */
  predicate Accepts(ch: char, base: nat) {
    0 <= A2d(ch) <= base
  }

  /** In base 10 that is the letter a besides the decimal digits, in base 16 just the hexadecimal digits. */
  lemma AcceptedCharacters(ch: char)
    ensures Accepts(ch, 10) <==> '0' <= ch <= '9' || ch == 'a' || ch == 'A'
    ensures Accepts(ch, 16) <==> '0' <= ch <= '9' || 'a' <= ch <= 'f' || 'A' <= ch <= 'F'
  {
  }

  /** `a2i` from character `ch` with `p` the position after it: number, next character, position. */
  function Scan(text: string, ch: char, p: nat, base: nat, acc: nat): (r: (nat, char, nat))
    ensures r.2 >= p && (p <= |text| + 1 ==> r.2 <= |text| + 1)
    ensures p >= 1 && ch == At(text, p - 1) ==> r.1 == At(text, r.2 - 1)
    decreases |text| + 1 - p
  {
    if Accepts(ch, base) && p <= |text| then Scan(text, At(text, p), p + 1, base, Mul(base, acc) + A2d(ch))
    else (acc, ch, p)
  }

  lemma {:induction false} ScanGrows(text: string, ch: char, p: nat, base: nat, acc: nat)
    requires base > 0
    ensures acc <= Scan(text, ch, p, base, acc).0
    decreases |text| + 1 - p
  {
    hide Mul;
    if Accepts(ch, base) && p <= |text| {
      MulMonotone(acc, 1, base);
      MulUnits(acc);
      MulCommutes(acc, base);
      ScanGrows(text, At(text, p), p + 1, base, Mul(base, acc) + A2d(ch));
    }
  }

  /** `a2i`; its `int` does not overflow as long as the result is an `int`. */
  method A2i(first: char, text: string, start: nat, base: nat) returns (num: nat, ch: char, p: nat)
    requires base > 0 && 1 <= start <= |text| + 1 && first == At(text, start - 1) && NUL !in text
    requires Scan(text, first, start, base, 0).0 < 0x8000_0000
    ensures (num, ch, p) == Scan(text, first, start, base, 0)
  {
    hide Mul;
    num, ch, p := 0, first, start;
    while A2d(ch) >= 0
      invariant start <= p <= |text| + 1 && ch == At(text, p - 1)
      invariant Scan(text, first, start, base, 0) == Scan(text, ch, p, base, num)
      decreases |text| + 1 - p
    {
      var digit := A2d(ch);
      if digit > base { break; }
      ScanGrows(text, ch, p, base, num);
      num := Mul(base, num) + digit;
      ch := At(text, p);
      p := p + 1;
    }
  }

  /** Scanning over digits `s` leaves the scan behind them, with the number they denote. */
  lemma {:induction false} ScanDigits(text: string, at: nat, s: string, base: nat, uc: bool, acc: nat)
    requires 2 <= base <= 16 && IsDigits(s, base, uc) && at + |s| <= |text| && text[at..at + |s|] == s
    ensures Scan(text, At(text, at), at + 1, base, acc) ==
      Scan(text, At(text, at + |s|), at + |s| + 1, base, Mul(Pow(base, |s|), acc) + Value(s, base))
    decreases |s|
  {
    if s == "" {
      MulUnits(acc);
    } else {
      assert IsDigit(s[0], base, uc) && text[at] == s[0] && text[at + 1..at + 1 + |s[1..]|] == s[1..];
      ScanDigits(text, at + 1, s[1..], base, uc, Mul(base, acc) + A2d(s[0]));
      HornerStep(base, Pow(base, |s| - 1), acc, A2d(s[0]) as nat);
    }
  }

  lemma HornerStep(b: nat, d: nat, acc: nat, v: nat)
    ensures Mul(d, Mul(b, acc) + v) == Mul(Mul(b, d), acc) + Mul(d, v)
  {
  }

  /** A scan goes no further exactly when it does not take the character it is at. */
  lemma ScanStopsIff(text: string, p: nat, base: nat, acc: nat)
    requires p <= |text|
    ensures Scan(text, At(text, p), p + 1, base, acc) == (acc, At(text, p), p + 1) <==> !Accepts(At(text, p), base)
  {
    hide Mul;
  }

  /** Parsing undoes printing exactly when the numeral is not followed by something `a2i` also takes:
      in base 10 a decimal digit or the letter a, in either case; in base 16 a hexadecimal digit. */
  lemma ParseUndoesPrintIff(n: nat, base: nat, uc: bool, rest: string)
    requires (base == 10 || base == 16) && NUL !in rest
    ensures var s := Numeral(n, base, uc); var text := s + rest;
      Scan(text, text[0], 1, base, 0) == (n, At(rest, 0), |s| + 1) <==> !Accepts(At(rest, 0), base)
  {
    hide Mul, Pow, Numeral, Value, Scan, IsDigits, Accepts;
    var s := Numeral(n, base, uc);
    var text := s + rest;
    NumeralDenotes(n, base, uc);
    ScanDigits(text, 0, s, base, uc, 0);
    MulUnits(Pow(base, |s|));
    assert At(text, |s|) == At(rest, 0);
    assert text[0] == At(text, 0);
    ScanStopsIff(text, |s|, base, n);
  }

  // ---------- ui2a and i2a ----------

  /** The text of a signed integer: a minus sign if it is negative, and the numeral of its size. */
  function IntText(v: int): (s: string)
    ensures |s| > 0 && (v < 0 <==> s[0] == '-')
    ensures s[if v < 0 then 1 else 0..] == Numeral(if v < 0 then -v else v, 10, false)
  {
    if v < 0 then ['-'] + Numeral(-v, 10, false) else Numeral(v, 10, false)
  }

  /** The first loop of `ui2a`: the largest power of the base not above `num`, or 1. It never overflows. */
  method LeadingPower(num: u32, base: nat) returns (d: u32)
    requires 2 <= base <= 16
    ensures d == Pow(base, Length(num, base) - 1)
  {
    hide Mul, Quot;
    ghost var k := 0;
    d := 1;
    while Quot(num, d) >= base
      invariant d == Pow(base, k) && d > 0 && (k > 0 ==> d <= num)
      decreases num - d
    {
      QuotBelow(num, d, base);
      MulCommutes(base, d);
      assert Pow(base, k + 1) == Mul(base, Pow(base, k));
      MulMonotone(d, 2, base);
      MulNext(d, 1);
      MulUnits(d);
      d := Mul(d, base);
      k := k + 1;
    }
    QuotBelow(num, d, base);
    MulCommutes(base, d);
    assert Pow(base, k + 1) == Mul(base, Pow(base, k));
    LengthUnique(num, base, k + 1);
  }

  /** `ui2a`: the numeral of `num` and a NUL, from position `start` of `bf` on. */
  method Ui2a(value: u32, base: nat, uc: bool, bf: array<char>, start: nat) returns (end: nat)
    requires 2 <= base <= 16 && start + |Numeral(value, base, uc)| < bf.Length
    modifies bf
    ensures end == start + |Numeral(value, base, uc)| && bf[start..end] == Numeral(value, base, uc) && bf[end] == NUL
    ensures bf[..start] == old(bf[..start]) && bf[end + 1..] == old(bf[start + |Numeral(value, base, uc)| + 1..])
  {
    hide Mul, Quot, Rem, Pow, Digits, Length, Numeral, DigitChar;
    ghost var was, all := bf[..], Numeral(value, base, uc);
    var n, num: nat := 0, value;
    var d := LeadingPower(num, base);
    ghost var k := Length(value, base) - 1;
    DigitsOf(value, base, uc);
    ghost var j := k + 1;
    DigitsStep(value, value, j, k, base, uc);
    var p := start;
    while d != 0
      invariant 0 <= j <= k + 1 && num < Pow(base, j) && d == (if j > 0 then Pow(base, j - 1) else 0)
      invariant j > 0 ==> d > 0
      invariant n == p - start == k + 1 - j && p + j == start + |all| && (n == 0 ==> num == value)
      invariant all == bf[start..p] + Digits(num, j, base, uc)
      invariant bf[..start] == was[..start] && bf[p..] == was[p..]
      decreases j
    {
      DigitsStep(value, num, j, k, base, uc);
      ghost var before, tail := bf[start..p], bf[p..];
      var dgt := Quot(num, d);
      num := Rem(num, d);
      d := Quot(d, base);
      if n > 0 || dgt > 0 || d == 0 {
        bf[p] := DigitChar(dgt, uc);
        p := p + 1;
        n := n + 1;
      }
      j := j - 1;
      assert bf[start..p] == before + [DigitChar(dgt, uc)];
      assert bf[p..] == tail[1..] == was[p..];
    }
    ghost var tail := bf[p..];
    bf[p] := NUL;
    end := p;
    assert bf[p + 1..] == tail[1..] == was[p + 1..];
  }

  /** One round of the digit loop, with `j` digits to go of `k + 1`. */
  lemma DigitsStep(value: nat, num: nat, j: nat, k: nat, base: nat, uc: bool)
    requires 2 <= base <= 16 && 0 < j <= k + 1 && num < Pow(base, j) && Length(value, base) == k + 1
    ensures Pow(base, j - 1) > 0 && Quot(num, Pow(base, j - 1)) < 16
    ensures var d := Pow(base, j - 1);
      && Digits(num, j, base, uc) == [DigitChar(Quot(num, d), uc)] + Digits(Rem(num, d), j - 1, base, uc)
      && Quot(d, base) == (if j > 1 then Pow(base, j - 2) else 0) && (j > 1 ==> Pow(base, j - 2) > 0)
      && (j == k + 1 && num == value && j > 1 ==> Quot(num, d) > 0)
  {
    hide Mul, Quot, Rem, Pow, Digits, Length, DigitChar;
    DigitsUnfold(num, j, base, uc);
    PowPrevious(base, j);
    LeadingDigitNonzero(value, num, j, k, base);
  }

  lemma DigitsOf(n: nat, base: nat, uc: bool)
    requires 2 <= base <= 16
    ensures n < Pow(base, Length(n, base)) && Numeral(n, base, uc) == Digits(n, Length(n, base), base, uc)
  {
    LengthBounds(n, base);
  }

  lemma DigitsUnfold(n: nat, j: nat, base: nat, uc: bool)
    requires 2 <= base <= 16 && j > 0 && n < Pow(base, j)
    ensures Pow(base, j - 1) > 0 && Quot(n, Pow(base, j - 1)) < 16
    ensures var d := Pow(base, j - 1);
      Digits(n, j, base, uc) == [DigitChar(Quot(n, d), uc)] + Digits(Rem(n, d), j - 1, base, uc)
  {
    DigitStep(n, j, base);
  }

  lemma PowPrevious(base: nat, j: nat)
    requires 2 <= base && j > 0
    ensures Quot(Pow(base, j - 1), base) == if j > 1 then Pow(base, j - 2) else 0
    ensures forall i: nat :: Pow(base, i) > 0
  {
    hide Mul, Quot;
    forall i: nat ensures Pow(base, i) > 0 {
      PowMonotone(base, 0, i);
    }
    if j > 1 {
      QuotRemUnique(base, Pow(base, j - 2), 0);
    } else {
      QuotBelow(1, base, 1);
      MulUnits(base);
    }
  }

  /** The digit the loop of `ui2a` meets first is never skipped. */
  lemma LeadingDigitNonzero(value: nat, num: nat, j: nat, k: nat, base: nat)
    requires 2 <= base && j > 0 && Length(value, base) == k + 1 && Pow(base, j - 1) > 0
    ensures j == k + 1 && num == value && j > 1 ==> Quot(num, Pow(base, j - 1)) > 0
  {
    hide Mul, Quot, Pow, Length;
    LengthBounds(value, base);
    QuotBelow(num, Pow(base, j - 1), 1);
    MulUnits(Pow(base, j - 1));
  }

  /** `i2a`: negating the least `int` wraps to itself and is then read as unsigned. */
  method I2a(value: int, bf: array<char>) returns (end: nat)
    requires -0x8000_0000 <= value < 0x8000_0000 && |IntText(value)| < bf.Length
    modifies bf
    ensures end == |IntText(value)| && bf[..end] == IntText(value) && bf[end] == NUL
  {
    hide Numeral;
    var num, p := value, 0;
    if num < 0 {
      num := if value == -0x8000_0000 then value else -num;
      bf[0] := '-';
      p := 1;
    }
    assert num % WORD_LIMIT == if value < 0 then -value else value;
    ghost var sign, digits := bf[..p], Numeral(num % WORD_LIMIT, 10, false);
    assert IntText(value) == sign + digits;
    end := Ui2a(num % WORD_LIMIT, 10, false, bf, p);
    assert bf[..end] == bf[..p] + bf[p..end];
  }

  // ---------- padding ----------

  /** The text of a NUL-terminated buffer. */
  function CString(bf: seq<char>): (s: string)
    requires NUL in bf
    ensures |s| < |bf| && bf[|s|] == NUL && bf[..|s|] == s && NUL !in s
  {
    if bf[0] == NUL then "" else [bf[0]] + CString(bf[1..])
  }

  lemma {:induction false} CStringIs(bf: seq<char>, s: string)
    requires |s| < |bf| && bf[..|s|] == s && bf[|s|] == NUL && NUL !in s
    ensures NUL in bf && CString(bf) == s
  {
    if s != "" {
      assert bf[0] == s[0] && bf[1..][..|s| - 1] == s[1..];
      CStringIs(bf[1..], s[1..]);
    }
  }

  function Repeat(c: char, n: int): (s: string)
    ensures |s| == (if n < 0 then 0 else n) && forall k | 0 <= k < |s| :: s[k] == c
  {
    if n <= 0 then "" else Repeat(c, n - 1) + [c]
  }

  /** `s` filled up on the left to width `w`. Zeros go in front of a minus sign, too. */
  function Pad(w: int, zero: bool, s: string): (r: string)
    ensures |s| <= |r| == (if w > |s| then w else |s|) && r[|r| - |s|..] == s
    ensures forall k | 0 <= k < |r| - |s| :: r[k] == if zero then '0' else ' '
  {
    Repeat(if zero then '0' else ' ', w - |s|) + s
  }

  /** The destination of `putcp`: a buffer and the place of the next character. */
  class Cursor {
    const buf: array<char>
    var at: nat

    constructor (b: array<char>)
      ensures buf == b && at == 0
    {
      buf, at := b, 0;
    }

    ghost predicate Room(n: nat)
      reads this
    {
      at + n <= buf.Length
    }

    ghost function Text(): string
      requires Room(0)
      reads this, buf
    {
      buf[..at]
    }

    /** `putcp`. */
    method Putf(c: char)
      requires Room(1)
      modifies this, buf
      ensures Room(0) && at == old(at) + 1 && Text() == old(Text()) + [c] && buf[at..] == old(buf[at + 1..])
    {
      buf[at] := c;
      at := at + 1;
    }
  }

  method Fill(out: Cursor, c: char, n: nat)
    requires out.Room(n)
    modifies out, out.buf
    ensures out.Room(0) && out.at == old(out.at) + n && out.Text() == old(out.Text()) + Repeat(c, n)
    ensures out.buf[out.at..] == old(out.buf[out.at + n..])
  {
    var k := n;
    ghost var done, text, tail := 0, out.Text(), out.buf[out.at..];
    while k > 0
      invariant 0 <= k <= n && done == n - k && out.at == old(out.at) + done && out.Room(0)
      invariant out.Text() == text + Repeat(c, done) && out.buf[out.at..] == tail[done..]
    {
      k := k - 1;
      out.Putf(c);
      done := done + 1;
    }
  }

  method PutString(out: Cursor, bf: seq<char>)
    requires NUL in bf && out.Room(|CString(bf)|)
    modifies out, out.buf
    ensures out.Room(0) && out.at == old(out.at) + |CString(bf)| && out.Text() == old(out.Text()) + CString(bf)
    ensures out.buf[out.at..] == old(out.buf[out.at + |CString(bf)|..])
  {
    ghost var s, text, tail := CString(bf), out.Text(), out.buf[out.at..];
    var i := 0;
    while bf[i] != NUL
      invariant i <= |s| && out.at == old(out.at) + i && out.Room(0)
      invariant out.Text() == text + s[..i] && out.buf[out.at..] == tail[i..]
      decreases |s| - i
    {
      assert bf[i] == bf[..|s|][i];
      out.Putf(bf[i]);
      i := i + 1;
    }
    assert s[..i] == s;
  }

  /** The first loop of `putchw`: how much of the width the text leaves over. */
  method Spare(width: nat, bf: seq<char>) returns (n: nat)
    requires NUL in bf
    ensures n == if width > |CString(bf)| then width - |CString(bf)| else 0
  {
    ghost var s := CString(bf);
    var p := 0;
    n := width;
    while bf[p] != NUL && n > 0
      invariant p <= |s| && n == width - p && n >= 0
      decreases n
    {
      assert p < |s| ==> bf[p] == bf[..|s|][p];
      p := p + 1;
      n := n - 1;
    }
    assert p < |s| ==> bf[p] == bf[..|s|][p];
  }

  /** `putchw`: the text of `bf`, filled up to width `width`. */
  method Putchw(out: Cursor, width: nat, zero: bool, bf: seq<char>)
    requires NUL in bf && out.Room(|Pad(width, zero, CString(bf))|)
    modifies out, out.buf
    ensures out.Room(0) && out.at == old(out.at) + |Pad(width, zero, CString(bf))|
    ensures out.Text() == old(out.Text()) + Pad(width, zero, CString(bf))
    ensures out.buf[out.at..] == old(out.buf[out.at + |Pad(width, zero, CString(bf))|..])
    ensures old(out.at) + |CString(bf)| <= out.at && out.buf[out.at - |CString(bf)|..out.at] == CString(bf)
    ensures forall k | old(out.at) <= k < out.at - |CString(bf)| :: out.buf[k] == if zero then '0' else ' '
    ensures out.at - old(out.at) == if |CString(bf)| < width then width else |CString(bf)|
  {
    hide CString, Pad;
    FillAndPut(out, width, zero, bf);
    PadAtEnd(out.buf[..], old(out.Text()), width, zero, CString(bf));
  }

  /** Its three loops. */
  method FillAndPut(out: Cursor, width: nat, zero: bool, bf: seq<char>)
    requires NUL in bf && out.Room(|Pad(width, zero, CString(bf))|)
    modifies out, out.buf
    ensures out.Room(0) && out.at == old(out.at) + |Pad(width, zero, CString(bf))|
    ensures out.Text() == old(out.Text()) + Pad(width, zero, CString(bf))
    ensures out.buf[out.at..] == old(out.buf[out.at + |Pad(width, zero, CString(bf))|..])
  {
    hide CString, Repeat;
    var fc := if zero then '0' else ' ';
    ghost var s, text, tail := CString(bf), out.Text(), out.buf[out.at..];
    var n := Spare(width, bf);
    PadIs(width, zero, s, n);
    hide Pad;
    Fill(out, fc, n);
    PutString(out, bf);
    DropTwice(tail, n, |s|);
  }

  lemma PadIs(width: nat, zero: bool, s: string, n: nat)
    requires n == if width > |s| then width - |s| else 0
    ensures Pad(width, zero, s) == Repeat(if zero then '0' else ' ', n) + s
    ensures |Pad(width, zero, s)| == n + |s|
  {
    hide Repeat;
    RepeatNone(if zero then '0' else ' ', width - |s|);
  }

  lemma DropTwice(s: string, i: nat, j: nat)
    requires i + j <= |s|
    ensures s[i..][j..] == s[i + j..]
  {
  }

  /** What padded text behind some other looks like in the buffer. */
  lemma PadAtEnd(buf: seq<char>, before: string, width: nat, zero: bool, s: string)
    requires var p := before + Pad(width, zero, s); |p| <= |buf| && buf[..|p|] == p
    ensures var end := |before + Pad(width, zero, s)|;
      && |before| + |s| <= end <= |buf| && end - |before| == (if |s| < width then width else |s|)
      && buf[end - |s|..end] == s
      && forall k | |before| <= k < end - |s| :: buf[k] == if zero then '0' else ' '
  {
    hide Repeat;
    var r := Pad(width, zero, s);
    var p := before + r;
    assert forall k | |before| <= k < |p| :: buf[k] == buf[..|p|][k] == r[k - |before|];
    assert buf[|p| - |s|..|p|] == r[|r| - |s|..];
  }

  lemma RepeatNone(c: char, n: int)
    ensures n <= 0 ==> Repeat(c, n) == Repeat(c, 0)
  {
  }
}
