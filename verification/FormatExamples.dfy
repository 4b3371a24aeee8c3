/** A few calls of the printf family, written out: what the meaning of format strings comes to. */
module FormatExamples {
  import opened Machine
  import opened Numerals
  import opened Formats
  import opened FormatInterpreter

  /** What `fmt` prints for `args`. */
  ghost predicate Prints(fmt: string, args: seq<Arg>, text: string) {
    SuitsAll(Tokens(fmt, 0), args) && RenderAll(Tokens(fmt, 0), args) == text
  }

  lemma TwoDigits(n: nat, base: nat, uc: bool, s: string)
    requires 2 <= base <= 16 && |s| == 2 && IsDigits(s, base, uc) && s[0] != '0'
    requires n == base * A2d(s[0]) + A2d(s[1])
    ensures Numeral(n, base, uc) == s
  {
    assert IsDigit(s[0], base, uc) && IsDigit(s[1], base, uc);
    assert Pow(base, 1) == base * Pow(base, 0) && Pow(base, 0) == 1;
    assert s[1..] == [s[1]] && s[1..][1..] == "";
    assert Value(s[1..], base) == A2d(s[1]);
    NumeralIsUnique(n, base, uc, s);
  }

  lemma OneToken(fmt: string, t: Token, args: seq<Arg>, text: string)
    requires Tokens(fmt, 0) == [t] && Suits(t, args) && Render(t, args) == text
    ensures Prints(fmt, args, text)
  {
    var none: seq<Token> := [];
    assert SuitsAll(none, args[Takes(t)..]) && RenderAll(none, args[Takes(t)..]) == "";
    assert [t][1..] == none;
  }

  /** A width of one digit, and the letter behind it. */
  lemma OneDigitWidth(fmt: string, p: nat, kind: char)
    requires p + 1 < |fmt| && '0' <= fmt[p] <= '9' && fmt[p + 1] == kind && !Accepts(kind, 10)
    ensures Scan(fmt, fmt[p], p + 1, 10, 0) == (A2d(fmt[p]), kind, p + 2)
  {
    hide Mul;
    MulUnits(10);
    assert Scan(fmt, fmt[p], p + 1, 10, 0) == Scan(fmt, kind, p + 2, 10, Mul(10, 0) + A2d(fmt[p]));
  }

  /** Blanks fill up to the width. */
  lemma Width()
    ensures Prints("%5d", [Int(42)], "   42")
  {
    TwoDigits(42, 10, false, "42");
    assert Tokens("%5d", 3) == [];
    OneDigitWidth("%5d", 1, 'd');
    assert Directive("%5d", 1) == (Conv(false, 5, 'd'), 3);
    assert Repeat(' ', 3) == "   ";
    OneToken("%5d", Conv(false, 5, 'd'), [Int(42)], "   42");
  }

  /** A zero flag fills up with zeros, in front of the sign. */
  lemma ZeroFlag()
    ensures Prints("%05d", [Int(0xFFFF_FFD6)], "00-42")
  {
    TwoDigits(42, 10, false, "42");
    assert Tokens("%05d", 4) == [];
    OneDigitWidth("%05d", 2, 'd');
    assert Directive("%05d", 1) == (Conv(true, 5, 'd'), 4);
    assert Repeat('0', 2) == "00";
    assert IntText(-42) == "-42";
    OneToken("%05d", Conv(true, 5, 'd'), [Int(0xFFFF_FFD6)], "00-42");
  }

  /** The case of the letter is that of the digits. */
  lemma LowerCase()
    ensures Prints("%x", [Int(0xBE)], "be")
  {
    TwoDigits(0xBE, 16, false, "be");
    assert Tokens("%x", 2) == [];
    assert Directive("%x", 1) == (Conv(false, 0, 'x'), 2);
    hide Numeral;
    OneToken("%x", Conv(false, 0, 'x'), [Int(0xBE)], "be");
  }

  lemma UpperCase()
    ensures Prints("%X", [Int(0xBE)], "BE")
  {
    TwoDigits(0xBE, 16, true, "BE");
    assert Tokens("%X", 2) == [];
    assert Directive("%X", 1) == (Conv(false, 0, 'X'), 2);
    hide Numeral;
    OneToken("%X", Conv(false, 0, 'X'), [Int(0xBE)], "BE");
  }

  /** A character takes the low byte of its argument, and no width. */
  lemma Character()
    ensures Prints("%5c", [Int(0x141)], "A")
  {
    OneDigitWidth("%5c", 1, 'c');
    assert Tokens("%5c", 3) == [];
    assert Directive("%5c", 1) == (Conv(false, 5, 'c'), 3);
    OneToken("%5c", Conv(false, 5, 'c'), [Int(0x141)], "A");
  }

  /** A string has its width, but no zeros. */
  lemma Text()
    ensures Prints("%04s", [Str("ab")], "  ab")
  {
    OneDigitWidth("%04s", 2, 's');
    assert Tokens("%04s", 4) == [];
    assert Directive("%04s", 1) == (Conv(true, 4, 's'), 4);
    assert Repeat(' ', 2) == "  ";
    OneToken("%04s", Conv(true, 4, 's'), [Str("ab")], "  ab");
  }

  /** A doubled percent sign prints one; an unknown letter prints nothing; a directive that is cut off stops. */
  lemma Oddities()
    ensures Prints("%%", [], "%") && Prints("%y", [], "") && Prints("x%5", [], "x")
  {
    assert Tokens("%%", 2) == [] && Tokens("%y", 2) == [];
    assert Directive("%%", 1) == (Conv(false, 0, '%'), 2) && Directive("%y", 1) == (Conv(false, 0, 'y'), 2);
    assert Directive("x%5", 2).0 == Stop;
    assert Tokens("x%5", 1) == [];
    OneToken("%%", Conv(false, 0, '%'), [], "%");
    OneToken("%y", Conv(false, 0, 'y'), [], "");
    OneToken("x%5", Lit('x'), [], "x");
  }

  /** Arguments are taken from left to right. */
  lemma LeftToRight()
    ensures Prints("%u-%u", [Int(42), Int(17)], "42-17")
  {
    hide Tokens, Numeral, Render, RenderAll, SuitsAll;
    var u, dash := Conv(false, 0, 'u'), Lit('-');
    TwoDirectives();
    var all, last := [Int(42), Int(17)], [Int(17)];
    assert all[1..] == last && last[0..] == last;
    UnsignedPrints(17, "17", last);
    UnsignedPrints(42, "42", all);
    RenderLit('-', last);
    NoTokens(last[1..]);
    RenderFirst(u, [], last, "17", "");
    RenderFirst(dash, [u] + [], last, "-", "17" + "");
    RenderFirst(u, [dash] + ([u] + []), all, "42", "-" + ("17" + ""));
    assert [u] + ([dash] + ([u] + [])) == [u, dash, u];
    assert "42" + ("-" + ("17" + "")) == "42-17";
  }

  lemma UnsignedPrints(n: u32, s: string, args: seq<Arg>)
    requires |s| == 2 && IsDigits(s, 10, false) && s[0] != '0' && n == 10 * A2d(s[0]) + A2d(s[1])
    requires args != [] && args[0] == Int(n)
    ensures var u := Conv(false, 0, 'u'); Suits(u, args) && Render(u, args) == s
  {
    TwoDigits(n, 10, false, s);
    hide Numeral;
  }

  lemma RenderFirst(t: Token, rest: seq<Token>, args: seq<Arg>, first: string, second: string)
    requires Suits(t, args) && Render(t, args) == first
    requires Takes(t) <= |args| && SuitsAll(rest, args[Takes(t)..]) && RenderAll(rest, args[Takes(t)..]) == second
    ensures SuitsAll([t] + rest, args) && RenderAll([t] + rest, args) == first + second
  {
    assert ([t] + rest)[1..] == rest;
  }

  lemma TwoDirectives()
    ensures Tokens("%u-%u", 0) == [Conv(false, 0, 'u'), Lit('-'), Conv(false, 0, 'u')]
  {
    var fmt, u := "%u-%u", Conv(false, 0, 'u');
    assert Directive(fmt, 1) == (u, 2) && Directive(fmt, 4) == (u, 5);
    hide Directive;
    TokensAt(fmt, 0);
    TokensAt(fmt, 2);
    TokensAt(fmt, 3);
    TokensAtEnd(fmt, 5);
  }
}
