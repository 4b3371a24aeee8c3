/** `tfp_format` and `tfp_sprintf`: the interpreter against a meaning for format strings. */
module FormatInterpreter {
  import opened Machine
  import opened Numerals
  import opened Formats

  // ---------- what a format string means ----------

  /** A directive's zero flag, width and conversion letter; the end of the string inside one stops. */
  datatype Token = Lit(c: char) | Conv(zero: bool, width: nat, kind: char) | Stop

  datatype Arg = Int(w: u32) | Str(s: string)

  /** The directive whose text starts at position `i`, behind its percent sign, and where it ends. */
  function Directive(fmt: string, i: nat): (r: (Token, nat))
    ensures r.1 > i && (i <= |fmt| && r.0 != Stop ==> r.1 <= |fmt|)
  {
    var zero := At(fmt, i) == '0';
    var j := if zero then i + 1 else i;
    var ch := At(fmt, j);
    var (w, kind, p) := if '0' <= ch <= '9' then Scan(fmt, ch, j + 1, 10, 0) else (0, ch, j + 1);
    (if kind == NUL then Stop else Conv(zero, w, kind), p)
  }

  function Tokens(fmt: string, i: nat): seq<Token>
    decreases |fmt| - i
  {
    if i >= |fmt| then [] else
    if fmt[i] != '%' then [Lit(fmt[i])] + Tokens(fmt, i + 1) else
    var (t, p) := Directive(fmt, i + 1);
    if t == Stop then [] else [t] + Tokens(fmt, p)
  }

  /** How many arguments a token takes. */
  function Takes(t: Token): nat {
    if t.Conv? && t.kind in {'u', 'd', 'x', 'X', 'c', 's'} then 1 else 0
  }

  /** The next argument, if one is taken, is of the kind the token expects. */
  predicate Suits(t: Token, args: seq<Arg>) {
    Takes(t) == 1 ==> |args| > 0 && (if t.kind == 's' then args[0].Str? && NUL !in args[0].s else args[0].Int?)
  }

  function Render(t: Token, args: seq<Arg>): string
    requires Suits(t, args)
  {
    match t
    case Lit(c) => [c]
    case Stop => ""
    case Conv(zero, width, kind) =>
      if kind == 'u' then Pad(width, zero, Numeral(args[0].w, 10, false))
      else if kind == 'd' then Pad(width, zero, IntText(Signed(args[0].w)))
      else if kind == 'x' || kind == 'X' then Pad(width, zero, Numeral(args[0].w, 16, kind == 'X'))
      else if kind == 'c' then [(args[0].w % 0x100) as char]
      else if kind == 's' then Pad(width, false, args[0].s)
      else if kind == '%' then "%"
      else ""
  }

  /** `text`, filled up on the left to the width. */
  ghost predicate Padded(r: string, width: nat, fill: char, text: string) {
    && |text| <= |r| == (if |text| < width then width else |text|) && r[|r| - |text|..] == text
    && forall k | 0 <= k < |r| - |text| :: r[k] == fill
  }

  /** A padded number: a minus sign if it is negative, and digits that denote its size, without a redundant
      zero. */
  ghost predicate ShowsNumber(r: string, width: nat, fill: char, negative: bool, n: nat, base: nat, uc: bool) {
    exists digits :: Padded(r, width, fill, if negative then ['-'] + digits else digits) && Denotes(digits, n, base, uc)
  }

  ghost predicate Denotes(digits: string, n: nat, base: nat, uc: bool) {
    IsDigits(digits, base, uc) && digits != "" && Value(digits, base) == n && (|digits| > 1 ==> digits[0] != '0')
  }

  lemma NumberShown(width: nat, zero: bool, negative: bool, n: nat, base: nat, uc: bool)
    requires 2 <= base <= 16
    ensures var digits := Numeral(n, base, uc);
      ShowsNumber(Pad(width, zero, if negative then ['-'] + digits else digits), width, if zero then '0' else ' ',
                  negative, n, base, uc)
  {
    hide Numeral, Value, IsDigits, Pad;
    var digits := Numeral(n, base, uc);
    NumeralDenotes(n, base, uc);
    assert Denotes(digits, n, base, uc);
  }

  /** What each directive prints, and that these six and no other take an argument. */
  lemma DirectiveMeans(zero: bool, width: nat, kind: char, args: seq<Arg>)
    requires Suits(Conv(zero, width, kind), args)
    ensures var t := Conv(zero, width, kind); var r, fill := Render(t, args), if zero then '0' else ' ';
      && Takes(t) == (if kind in {'u', 'd', 'x', 'X', 'c', 's'} then 1 else 0)
      && (Takes(t) == 1 ==> args != [] && (kind == 's' <==> args[0].Str?))
      && (kind == 'u' ==> ShowsNumber(r, width, fill, false, args[0].w, 10, false))
      && (kind == 'd' ==> var w := args[0].w;
            ShowsNumber(r, width, fill, 0x8000_0000 <= w, if 0x8000_0000 <= w then WORD_LIMIT - w else w, 10, false))
      && (kind == 'x' ==> ShowsNumber(r, width, fill, false, args[0].w, 16, false))
      && (kind == 'X' ==> ShowsNumber(r, width, fill, false, args[0].w, 16, true))
      && (kind == 'c' ==> r == [(args[0].w % 0x100) as char])
      && (kind == 's' ==> Padded(r, width, ' ', args[0].s))
      && (kind == '%' ==> r == "%")
      && (Takes(t) == 0 && kind != '%' ==> r == "")
  {
    hide ShowsNumber, Padded, Numeral, Pad, IntText;
    if kind == 'u' {
      NumberShown(width, zero, false, args[0].w, 10, false);
    } else if kind == 'd' {
      SignedShown(width, zero, args[0].w);
    } else if kind == 'x' || kind == 'X' {
      NumberShown(width, zero, false, args[0].w, 16, kind == 'X');
    } else if kind == 's' {
      PadIsPadded(width, false, args[0].s);
    }
  }

  lemma PadIsPadded(width: nat, zero: bool, text: string)
    ensures Padded(Pad(width, zero, text), width, if zero then '0' else ' ', text)
  {
    hide Pad;
  }

  lemma SignedShown(width: nat, zero: bool, w: u32)
    ensures var negative := 0x8000_0000 <= w;
      ShowsNumber(Pad(width, zero, IntText(Signed(w))), width, if zero then '0' else ' ',
                  negative, if negative then WORD_LIMIT - w else w, 10, false)
  {
    hide ShowsNumber, Pad, Numeral;
    var negative := 0x8000_0000 <= w;
    NumberShown(width, zero, negative, if negative then WORD_LIMIT - w else w, 10, false);
  }

  predicate SuitsAll(ts: seq<Token>, args: seq<Arg>) {
    ts == [] || (Suits(ts[0], args) && SuitsAll(ts[1..], args[Takes(ts[0])..]))
  }

  /** The concatenated renderings, each token taking its arguments off the front. */
  function RenderAll(ts: seq<Token>, args: seq<Arg>): string
    requires SuitsAll(ts, args)
  {
    if ts == [] then "" else Render(ts[0], args) + RenderAll(ts[1..], args[Takes(ts[0])..])
  }

  function TakesAll(ts: seq<Token>): nat {
    if ts == [] then 0 else Takes(ts[0]) + TakesAll(ts[1..])
  }

  /** Meaning is compositional: a layout in two parts prints the one and then the other, which starts
      from the arguments the first has left. */
  lemma {:induction false} RenderingIsCompositional(a: seq<Token>, b: seq<Token>, args: seq<Arg>)
    requires SuitsAll(a, args) && TakesAll(a) <= |args|
    ensures SuitsAll(a + b, args) <==> SuitsAll(b, args[TakesAll(a)..])
    ensures SuitsAll(a + b, args) ==> RenderAll(a + b, args) == RenderAll(a, args) + RenderAll(b, args[TakesAll(a)..])
    decreases |a|
  {
    if a == [] {
      assert a + b == b && args[0..] == args;
    } else {
      assert (a + b)[0] == a[0] && (a + b)[1..] == a[1..] + b;
      var rest := args[Takes(a[0])..];
      assert rest[TakesAll(a[1..])..] == args[TakesAll(a)..];
      RenderingIsCompositional(a[1..], b, rest);
    }
  }

  // ---------- every layout can be written down ----------

  /** Tokens that have a spelling of their own: no bare percent sign, and behind a width no letter that
      `a2i` takes, behind none no decimal digit. */
  ghost predicate Spellable(t: Token) {
    match t
    case Lit(c) => c != '%' && c != NUL
    case Conv(zero, width, kind) => kind != NUL && if width > 0 then !Accepts(kind, 10) else !('0' <= kind <= '9')
    case Stop => false
  }

  function WidthText(width: nat): string {
    if width > 0 then Numeral(width, 10, false) else ""
  }

  function Spell(t: Token): string {
    match t
    case Lit(c) => [c]
    case Conv(zero, width, kind) =>
      "%" + (if zero then "0" else "") + WidthText(width) + [kind]
    case Stop => "%"
  }

  function SpellAll(ts: seq<Token>): string {
    if ts == [] then "" else Spell(ts[0]) + SpellAll(ts[1..])
  }

  /** Reading back a directive: the numeral is taken as the width exactly when the letter behind it is
      not one that `a2i` takes for a digit, the letter a among them. */
  lemma WidthReadsBackIff(fmt: string, i: nat, width: nat, kind: char)
    requires width > 0 && kind != NUL
    requires var s := Numeral(width, 10, false); i + |s| < |fmt| && fmt[i..i + |s|] == s && fmt[i + |s|] == kind
    ensures var s := Numeral(width, 10, false);
      Directive(fmt, i) == (Conv(false, width, kind), i + |s| + 1) <==> !Accepts(kind, 10)
  {
    var s := Numeral(width, 10, false);
    WidthScan(fmt, i, width);
    NumeralStart(width);
    assert fmt[i] == s[0];
  }

  lemma WidthScan(fmt: string, i: nat, width: nat)
    requires var s := Numeral(width, 10, false); i + |s| <= |fmt| && fmt[i..i + |s|] == s
    ensures var s := Numeral(width, 10, false);
      Scan(fmt, At(fmt, i), i + 1, 10, 0) == Scan(fmt, At(fmt, i + |s|), i + |s| + 1, 10, width)
  {
    hide Mul, Pow, Numeral, Scan;
    var s := Numeral(width, 10, false);
    NumeralDenotes(width, 10, false);
    ScanDigits(fmt, i, s, 10, false, 0);
    MulUnits(Pow(10, |s|));
  }

  lemma NumeralStart(n: nat)
    ensures var s := Numeral(n, 10, false); '0' <= s[0] <= '9' && (n > 0 ==> s[0] != '0')
  {
    hide Mul, Pow, Numeral;
    var s := Numeral(n, 10, false);
    NumeralDenotes(n, 10, false);
    assert IsDigit(s[0], 10, false);
    DigitRoundTrip(A2d(s[0]), false);
    if |s| == 1 {
      assert Pow(10, 0) == 1 by { TenToNothing(); }
      MulUnits(A2d(s[0]) as nat);
    }
  }

  lemma TenToNothing()
    ensures Pow(10, 0) == 1
  {
  }

  lemma DirectiveReadsBack(fmt: string, i: nat, j: nat, width: nat, kind: char)
    requires (j == i || (j == i + 1 && At(fmt, i) == '0'))
    requires kind != NUL && if width > 0 then !Accepts(kind, 10) else !('0' <= kind <= '9')
    requires var num := WidthText(width); j + |num| < |fmt| && fmt[j..j + |num|] == num && fmt[j + |num|] == kind
    ensures Directive(fmt, i) == (Conv(j == i + 1, width, kind), j + |WidthText(width)| + 1)
  {
    hide Numeral, Scan;
    if width > 0 {
      ScanRefuses(fmt, kind, j + |WidthText(width)| + 1, width);
      WidthScan(fmt, j, width);
      NumeralStart(width);
      assert fmt[j] == WidthText(width)[0];
    }
  }

  lemma ScanRefuses(fmt: string, ch: char, p: nat, acc: nat)
    requires !Accepts(ch, 10)
    ensures Scan(fmt, ch, p, 10, acc) == (acc, ch, p)
  {
  }

  /** The token spelled at position `i`, and what stands behind it. */
  lemma SpelledAt(fmt: string, i: nat, t: Token, rest: string)
    requires i <= |fmt| && Spellable(t) && fmt[i..] == Spell(t) + rest
    ensures i + |Spell(t)| <= |fmt| && |Spell(t)| > 0 && fmt[i + |Spell(t)|..] == rest
    ensures t.Lit? ==> fmt[i] == t.c
    ensures t.Conv? ==> fmt[i] == '%' && Directive(fmt, i + 1) == (t, i + |Spell(t)|)
  {
    hide Directive, WidthText;
    var s, n := Spell(t), |Spell(t)|;
    assert fmt[i + n..] == fmt[i..][n..] == rest;
    assert forall k | 0 <= k < n :: fmt[i + k] == fmt[i..][k] == s[k];
    if t.Conv? {
      var num, z := WidthText(t.width), if t.zero then 1 else 0;
      var j := i + 1 + z;
      assert fmt[i + 0] == s[0] && fmt[i + 1] == s[1];
      assert s[1 + z..1 + z + |num|] == num && s[n - 1] == t.kind && n == 2 + z + |num|;
      assert fmt[j..j + |num|] == num;
      assert fmt[i + (n - 1)] == s[n - 1];
      DirectiveReadsBack(fmt, i + 1, j, t.width, t.kind);
    } else {
      assert fmt[i + 0] == s[0];
    }
  }

  lemma SpelledToken(fmt: string, i: nat, t: Token, rest: string)
    requires i <= |fmt| && Spellable(t) && fmt[i..] == Spell(t) + rest
    ensures i + |Spell(t)| <= |fmt| && fmt[i + |Spell(t)|..] == rest && i < |fmt|
    ensures Tokens(fmt, i) == [t] + Tokens(fmt, i + |Spell(t)|)
  {
    hide Directive, Tokens, WidthText;
    SpelledAt(fmt, i, t, rest);
    TokensAt(fmt, i);
  }

  /** Reading back a spelled layout gives the layout: every layout of spellable tokens can be had. */
  lemma {:induction false} SpellingReadsBack(fmt: string, i: nat, ts: seq<Token>)
    requires i <= |fmt| && fmt[i..] == SpellAll(ts) && forall k | 0 <= k < |ts| :: Spellable(ts[k])
    ensures Tokens(fmt, i) == ts
    decreases |ts|
  {
    hide Spell, Tokens, Spellable;
    if ts == [] {
      TokensAtEnd(fmt, i);
    } else {
      SpelledToken(fmt, i, ts[0], SpellAll(ts[1..]));
      SpellingReadsBack(fmt, i + |Spell(ts[0])|, ts[1..]);
    }
  }

  // ---------- tfp_format and tfp_sprintf ----------

  /** No width overflows an `int`, and the string is the content of a C string. */
  ghost predicate Sane(fmt: string) {
    NUL !in fmt && SaneFrom(fmt, 0)
  }

  /** No width that is read from position `i` on overflows; literal text is not bounded. */
  ghost predicate SaneFrom(fmt: string, i: nat)
    decreases |fmt| - i
  {
    i >= |fmt| ||
    if fmt[i] != '%' then SaneFrom(fmt, i + 1) else
      WidthAt(fmt, i + 1) < 0x8000_0000 && (Directive(fmt, i + 1).0 != Stop ==> SaneFrom(fmt, Directive(fmt, i + 1).1))
  }

  ghost function WidthAt(fmt: string, i: nat): nat {
    var j := if At(fmt, i) == '0' then i + 1 else i;
    Scan(fmt, At(fmt, j), j + 1, 10, 0).0
  }

  /** The part of `tfp_format` that reads a directive, from the character behind the percent sign on. */
  method ReadDirective(fmt: string, start: nat) returns (zero: bool, width: nat, ch: char, p: nat)
    requires NUL !in fmt && start <= |fmt| && WidthAt(fmt, start) < 0x8000_0000
    ensures Directive(fmt, start) == (if ch == NUL then Stop else Conv(zero, width, ch), p)
  {
    hide Scan;
    zero, width, p := false, 0, start;
    ch := At(fmt, p);
    p := p + 1;
    if ch == '0' {
      ch := At(fmt, p);
      p := p + 1;
      zero := true;
    }
    if '0' <= ch <= '9' {
      width, ch, p := A2i(ch, fmt, p, 10);
    }
  }

  /** The switch of `tfp_format`: carries out one directive and reports how many arguments it took. */
  method Convert(out: Cursor, zero: bool, width: nat, ch: char, args: seq<Arg>) returns (taken: nat)
    requires Suits(Conv(zero, width, ch), args) && out.Room(|Render(Conv(zero, width, ch), args)|)
    modifies out, out.buf
    ensures taken == Takes(Conv(zero, width, ch)) && out.Room(0)
    ensures var r := Render(Conv(zero, width, ch), args);
      out.at == old(out.at) + |r| && out.Text() == old(out.Text()) + r
        && out.buf[out.at..] == old(out.buf[out.at + |r|..])
  {
    hide Numeral, IntText, Pad, CString;
    taken := 0;
    if ch in {'u', 'd', 'x', 'X'} {
      var w := args[0].w;
      var bf := NumberText(ch, w);
      Putchw(out, width, zero, bf);
      taken := 1;
    } else if ch == 'c' {
      out.Putf((args[0].w % 0x100) as char);
      taken := 1;
    } else if ch == 's' {
      var text := args[0].s;
      CStringIs(text + [NUL], text);
      Putchw(out, width, false, text + [NUL]);
      taken := 1;
    } else if ch == '%' {
      out.Putf(ch);
    }
  }

  /** The numeric cases of the switch: the text fits the local buffer of twelve characters. */
  method NumberText(ch: char, w: u32) returns (bf: seq<char>)
    requires ch in {'u', 'd', 'x', 'X'}
    ensures NUL in bf && |bf| == 12
    ensures CString(bf) == if ch == 'u' then Numeral(w, 10, false) else if ch == 'd' then IntText(Signed(w))
                           else Numeral(w, 16, ch == 'X')
  {
    hide Numeral, CString;
    var buffer := new char[12](_ => ' ');
    var end;
    NumeralFits(w, false);
    NumeralFits(w, ch == 'X');
    ghost var text: string;
    if ch == 'u' {
      text := Numeral(w, 10, false);
      NumeralHasNoNul(w, 10, false);
      end := Ui2a(w, 10, false, buffer, 0);
    } else if ch == 'd' {
      text := IntText(Signed(w));
      IntTextFits(Signed(w));
      end := I2a(Signed(w), buffer);
    } else {
      text := Numeral(w, 16, ch == 'X');
      NumeralHasNoNul(w, 16, ch == 'X');
      end := Ui2a(w, 16, ch == 'X', buffer, 0);
    }
    bf := buffer[..];
    assert bf[..end] == buffer[0..end] == text;
    CStringIs(bf, text);
  }

  lemma NumeralHasNoNul(n: nat, base: nat, uc: bool)
    requires 2 <= base <= 16
    ensures NUL !in Numeral(n, base, uc)
  {
    hide Numeral, Value;
    NumeralDenotes(n, base, uc);
    var s := Numeral(n, base, uc);
    forall k | 0 <= k < |s| ensures s[k] != NUL {
      assert IsDigit(s[k], base, uc);
      DigitRoundTrip(A2d(s[k]), uc);
    }
  }

  lemma IntTextFits(v: int)
    requires -0x8000_0000 <= v < 0x8000_0000
    ensures |IntText(v)| <= 11 && NUL !in IntText(v)
  {
    hide Numeral;
    var n := if v < 0 then -v else v;
    NumeralFits(n, false);
    NumeralHasNoNul(n, 10, false);
  }

  /** One round of the loop of `tfp_format`: a literal or a directive, or the end inside a directive. */
  method FormatOne(out: Cursor, fmt: string, i: nat, args: seq<Arg>)
    returns (next: nat, taken: nat, stop: bool, ghost r: string)
    requires NUL !in fmt && SaneFrom(fmt, i) && i < |fmt|
    requires SuitsAll(Tokens(fmt, i), args) && out.Room(|RenderAll(Tokens(fmt, i), args)|)
    modifies out, out.buf
    ensures stop ==> Tokens(fmt, i) == [] && r == "" && taken == 0
    ensures !stop ==> i < next <= |fmt| && SaneFrom(fmt, next)
    ensures !stop ==> taken <= |args| && SuitsAll(Tokens(fmt, next), args[taken..])
    ensures !stop ==> RenderAll(Tokens(fmt, i), args) == r + RenderAll(Tokens(fmt, next), args[taken..])
    ensures !stop ==> TakesAll(Tokens(fmt, i)) == taken + TakesAll(Tokens(fmt, next))
    ensures out.Room(0) && out.at == old(out.at) + |r| && out.Text() == old(out.Text()) + r
    ensures out.buf[out.at..] == old(out.buf[out.at + |r|..])
  {
    hide Directive, Render, Takes, Suits, Tokens, RenderAll, SuitsAll, TakesAll;
    TokensAt(fmt, i);
    var ch := fmt[i];
    next, taken, stop, r := i + 1, 0, false, "";
    if ch != '%' {
      OneToken(Lit(ch), Tokens(fmt, next), args);
      RenderLit(ch, args);
      out.Putf(ch);
      r := [ch];
    } else {
      var zero, width, kind, p := ReadDirective(fmt, next);
      if kind == NUL {
        stop := true;
        return;
      }
      OneToken(Conv(zero, width, kind), Tokens(fmt, p), args);
      r := Render(Conv(zero, width, kind), args);
      taken := Convert(out, zero, width, kind, args);
      next := p;
    }
  }

  /** `tfp_format` into a buffer: it emits exactly the renderings of its tokens, in order, and takes its
      arguments in order. */
  method TfpFormat(out: Cursor, fmt: string, args: seq<Arg>) returns (used: nat)
    requires Sane(fmt) && SuitsAll(Tokens(fmt, 0), args) && out.Room(|RenderAll(Tokens(fmt, 0), args)|)
    modifies out, out.buf
    ensures out.Room(0) && used == TakesAll(Tokens(fmt, 0))
    ensures var r := RenderAll(Tokens(fmt, 0), args);
      out.at == old(out.at) + |r| && out.Text() == old(out.Text()) + r
        && out.buf[out.at..] == old(out.buf[out.at + |r|..])
  {
    hide Tokens, RenderAll, SuitsAll, TakesAll, SaneFrom, Directive, Suits, Render, Takes;
    ghost var text, tail := out.Text(), out.buf[out.at..];
    ghost var all, done := RenderAll(Tokens(fmt, 0), args), "";
    var rest := args;
    used := 0;
    var i := 0;
    while i < |fmt|
      invariant i <= |fmt| && SaneFrom(fmt, i) && SuitsAll(Tokens(fmt, i), rest)
        && all == done + RenderAll(Tokens(fmt, i), rest)
      invariant TakesAll(Tokens(fmt, 0)) == used + TakesAll(Tokens(fmt, i))
      invariant out.at == old(out.at) + |done| && out.Room(0) && out.Text() == text + done
        && out.buf[out.at..] == tail[|done|..]
      decreases |fmt| - i
    {
      var next, taken, stop, r := FormatOne(out, fmt, i, rest);
      if stop {
        NoTokens(rest);
        return;
      }
      DropTwice(tail, |done|, |r|);
      done := done + r;
      rest := rest[taken..];
      used := used + taken;
      i := next;
    }
    TokensAtEnd(fmt, i);
    NoTokens(rest);
  }

  lemma TokensAt(fmt: string, i: nat)
    requires i < |fmt|
    ensures Tokens(fmt, i) ==
      if fmt[i] != '%' then [Lit(fmt[i])] + Tokens(fmt, i + 1)
      else if Directive(fmt, i + 1).0 == Stop then []
        else [Directive(fmt, i + 1).0] + Tokens(fmt, Directive(fmt, i + 1).1)
  {
    hide Directive;
  }

  lemma TokensAtEnd(fmt: string, i: nat)
    requires i >= |fmt|
    ensures Tokens(fmt, i) == []
  {
  }

  lemma NoTokens(args: seq<Arg>)
    ensures SuitsAll([], args) && RenderAll([], args) == "" && TakesAll([]) == 0
  {
  }

  lemma OneToken(t: Token, rest: seq<Token>, args: seq<Arg>)
    requires SuitsAll([t] + rest, args)
    ensures Suits(t, args) && Takes(t) <= |args| && SuitsAll(rest, args[Takes(t)..])
    ensures RenderAll([t] + rest, args) == Render(t, args) + RenderAll(rest, args[Takes(t)..])
    ensures TakesAll([t] + rest) == Takes(t) + TakesAll(rest)
  {
    assert ([t] + rest)[1..] == rest;
  }

  lemma RenderLit(c: char, args: seq<Arg>)
    ensures Takes(Lit(c)) == 0 && Suits(Lit(c), args) && Render(Lit(c), args) == [c]
  {
  }

  /** `tfp_sprintf`: the text and one NUL, from the start of `s` on, and nothing else. */
  method TfpSprintf(s: array<char>, fmt: string, args: seq<Arg>)
    requires Sane(fmt) && SuitsAll(Tokens(fmt, 0), args) && |RenderAll(Tokens(fmt, 0), args)| < s.Length
    modifies s
    ensures var r := RenderAll(Tokens(fmt, 0), args);
      s[..] == r + [NUL] + old(s[|r| + 1..])
  {
    hide Tokens, RenderAll, SuitsAll;
    ghost var r, was := RenderAll(Tokens(fmt, 0), args), s[..];
    var out := new Cursor(s);
    var used := TfpFormat(out, fmt, args);
    out.Putf(NUL);
    assert s[..] == s[..out.at] + s[out.at..];
  }
}
