/** What a format string stands for, and what the decimal parser reads. */
module Formatting {
  import opened Digits

  /** A NUL-terminated string, without its terminator. */
  type CString = s: string | '\0' !in s

  type Int32 = n: int | -0x8000_0000 <= n < 0x8000_0000

  datatype Arg = IntArg(n: Int32) | StrArg(s: CString)

  /** No lone '%' at the end, and an argument of the right kind for every directive. The printer
      negates a negative int, so the least one is out. */
  predicate WellFormed(format: CString, args: seq<Arg>) {
    if format == "" then true
    else if format[0] != '%' then WellFormed(format[1..], args)
    else if |format| < 2 then false
    else if format[1] == 'd' then
      args != [] && args[0].IntArg? && args[0].n > -0x8000_0000 && WellFormed(format[2..], args[1..])
    else if format[1] == 's' then
      args != [] && args[0].StrArg? && WellFormed(format[2..], args[1..])
    else WellFormed(format[2..], args)
  }

  /** The characters a well-formed format produces. */
  function Formatted(format: CString, args: seq<Arg>): string
    requires WellFormed(format, args)
  {
    if format == "" then ""
    else if format[0] != '%' then [format[0]] + Formatted(format[1..], args)
    else if format[1] == 'd' then Signed(args[0].n, 10) + Formatted(format[2..], args[1..])
    else if format[1] == 's' then args[0].s + Formatted(format[2..], args[1..])
    else [format[1]] + Formatted(format[2..], args)
  }

  /** Number of arguments a format takes. */
  function Uses(format: CString): nat {
    if format == "" then 0
    else if format[0] != '%' then Uses(format[1..])
    else if |format| < 2 then 0
    else (if format[1] == 'd' || format[1] == 's' then 1 else 0) + Uses(format[2..])
  }

  lemma PlainFirst(c: char, f: CString, args: seq<Arg>)
    requires c != '%' && c != '\0'
    ensures WellFormed([c] + f, args) <==> WellFormed(f, args)
    ensures WellFormed(f, args) ==> Formatted([c] + f, args) == [c] + Formatted(f, args)
  {
    assert ([c] + f)[1..] == f;
  }

  /** `a` are the arguments of the directive `c`, none or one. */
  lemma DirectiveFirst(c: char, a: seq<Arg>, f: CString, args: seq<Arg>)
    requires c != '\0' && WellFormed(['%', c], a) && |a| == (if c == 'd' || c == 's' then 1 else 0)
    ensures WellFormed(['%', c] + f, a + args) <==> WellFormed(f, args)
    ensures WellFormed(f, args) ==>
              Formatted(['%', c] + f, a + args) == Formatted(['%', c], a) + Formatted(f, args)
  {
    var one: CString, all: CString := ['%', c], ['%', c] + f;
    assert all[2..] == f && one[2..] == "";
    if c == 'd' || c == 's' {
      assert (a + args)[1..] == args && a[1..] == [];
      assert c == 'd' ==> Signed(a[0].n, 10) + "" == Signed(a[0].n, 10);
      assert c == 's' ==> a[0].s + "" == a[0].s;
    } else {
      assert a + args == args;
      assert [c] + "" == [c];
    }
  }

  lemma FirstParts(f: CString, a: seq<Arg>) returns (c: char, k: nat)
    requires f != "" && f[0] == '%' && WellFormed(f, a) && |a| == Uses(f)
    ensures |f| >= 2 && f[..2] == ['%', c] && c != '\0' && k <= |a|
    ensures WellFormed(['%', c], a[..k]) && k == if c == 'd' || c == 's' then 1 else 0
    ensures WellFormed(f[2..], a[k..]) && |a[k..]| == Uses(f[2..])
  {
    c := f[1];
    assert c in f;
    k := if c == 'd' || c == 's' then 1 else 0;
    var one: CString := ['%', c];
    assert one[2..] == "";
  }

  lemma Associates(a: string, b: string, c: string)
    ensures a + (b + c) == (a + b) + c
  {
  }

  /** What holds of two formats with a common rest still holds behind a common start. */
  lemma PlainStep(c: char, f: CString, fg: CString, a: seq<Arg>, ab: seq<Arg>, rest: string)
    requires c != '%' && c != '\0' && WellFormed(f, a) && WellFormed(fg, ab)
    requires Formatted(fg, ab) == Formatted(f, a) + rest
    ensures WellFormed([c] + f, a) && WellFormed([c] + fg, ab)
    ensures Formatted([c] + fg, ab) == Formatted([c] + f, a) + rest
  {
    PlainFirst(c, fg, ab);
    PlainFirst(c, f, a);
    Associates([c], Formatted(f, a), rest);
  }

  lemma DirectiveStep(c: char, own: seq<Arg>, f: CString, fg: CString, a: seq<Arg>, ab: seq<Arg>, rest: string)
    requires c != '\0' && WellFormed(['%', c], own) && |own| == (if c == 'd' || c == 's' then 1 else 0)
    requires WellFormed(f, a) && WellFormed(fg, ab) && Formatted(fg, ab) == Formatted(f, a) + rest
    ensures WellFormed(['%', c] + f, own + a) && WellFormed(['%', c] + fg, own + ab)
    ensures Formatted(['%', c] + fg, own + ab) == Formatted(['%', c] + f, own + a) + rest
  {
    DirectiveFirst(c, own, fg, ab);
    DirectiveFirst(c, own, f, a);
    Associates(Formatted(['%', c], own), Formatted(f, a), rest);
  }

  lemma SplitConcat<T>(f: seq<T>, g: seq<T>, n: nat)
    requires n <= |f|
    ensures f == f[..n] + f[n..] && f + g == f[..n] + (f[n..] + g)
  {
  }

  lemma NoNul(f: CString, g: CString, n: nat)
    requires n <= |f|
    ensures '\0' !in f[n..] && '\0' !in f[n..] + g && '\0' !in f + g
  {
  }

  lemma BehindPlain(f: CString, g: CString, a: seq<Arg>, b: seq<Arg>)
    requires f != "" && f[0] != '%' && WellFormed(f[1..], a) && WellFormed(g, b)
    requires WellFormed(f[1..] + g, a + b) && Formatted(f[1..] + g, a + b) == Formatted(f[1..], a) + Formatted(g, b)
    ensures WellFormed(f + g, a + b) && Formatted(f + g, a + b) == Formatted(f, a) + Formatted(g, b)
  {
    NoNul(f, g, 1);
    SplitConcat(f, g, 1);
    assert f[..1] == [f[0]] && f[0] in f;
    PlainStep(f[0], f[1..], f[1..] + g, a, a + b, Formatted(g, b));
  }

  lemma BehindDirective(f: CString, g: CString, c: char, a: seq<Arg>, b: seq<Arg>, k: nat)
    requires |f| >= 2 && f[..2] == ['%', c] && c != '\0' && k <= |a| && WellFormed(g, b)
    requires WellFormed(['%', c], a[..k]) && k == (if c == 'd' || c == 's' then 1 else 0)
    requires WellFormed(f[2..], a[k..]) && WellFormed(f[2..] + g, a[k..] + b)
    requires Formatted(f[2..] + g, a[k..] + b) == Formatted(f[2..], a[k..]) + Formatted(g, b)
    ensures WellFormed(f, a) && WellFormed(f + g, a + b)
    ensures Formatted(f + g, a + b) == Formatted(f, a) + Formatted(g, b)
  {
    NoNul(f, g, 2);
    SplitConcat(f, g, 2);
    SplitConcat(a, b, k);
    DirectiveStep(c, a[..k], f[2..], f[2..] + g, a[k..], a[k..] + b, Formatted(g, b));
  }

  /** A format is its parts one after the other, each with its own arguments. */
  lemma {:induction false} FormattedConcat(f: CString, g: CString, a: seq<Arg>, b: seq<Arg>)
    requires WellFormed(f, a) && |a| == Uses(f) && WellFormed(g, b)
    ensures WellFormed(f + g, a + b) && Formatted(f + g, a + b) == Formatted(f, a) + Formatted(g, b)
    decreases |f|
  {
    if f == "" {
      assert f + g == g && a + b == b;
    } else if f[0] != '%' {
      FormattedConcat(f[1..], g, a, b);
      BehindPlain(f, g, a, b);
    } else {
      var c, k := FirstParts(f, a);
      FormattedConcat(f[2..], g, a[k..], b);
      BehindDirective(f, g, c, a, b, k);
    }
  }

  /** Text without '%' stands for itself. */
  lemma {:induction false} FormattedText(f: CString)
    requires '%' !in f
    ensures Uses(f) == 0 && WellFormed(f, []) && Formatted(f, []) == f
  {
    if f == "" {
    } else {
      assert f[0] in f && forall c | c in f[1..] :: c in f;
      FormattedText(f[1..]);
      assert [f[0]] + f[1..] == f;
    }
  }

  /** What each directive prints: a number, a string, or the character after the '%' itself. */
  lemma FormattedDirective(n: Int32, s: CString, c: char)
    requires n > -0x8000_0000 && c !in {'d', 's', '\0'}
    ensures Uses("%d") == 1 && WellFormed("%d", [IntArg(n)]) && Formatted("%d", [IntArg(n)]) == Signed(n, 10)
    ensures Uses("%s") == 1 && WellFormed("%s", [StrArg(s)]) && Formatted("%s", [StrArg(s)]) == s
    ensures Uses(['%', c]) == 0 && WellFormed(['%', c], []) && Formatted(['%', c], []) == [c]
  {
    var d: CString, t: CString, other: CString := "%d", "%s", ['%', c];
    assert d[2..] == "" && t[2..] == "" && other[2..] == "";
    assert Signed(n, 10) + "" == Signed(n, 10) && s + "" == s && [c] + "" == [c];
  }

  lemma SignedLength(n: Int32)
    requires n > -0x8000_0000
    ensures 0 < |Signed(n, 10)| <= 11
    ensures '\0' !in Signed(n, 10)
  {
    var m := if n < 0 then -n else n;
    TenDigits(m);
    NumeralMeans(m, 10);
    assert DigitValue('\0') == -1;
  }

  // ----- parsing

  /** Number of leading spaces and tabs. */
  function Blanks(s: string): nat {
    if s != "" && (s[0] == ' ' || s[0] == '\t') then 1 + Blanks(s[1..]) else 0
  }

  predicate IsDecimal(c: char) { '0' <= c <= '9' }

  /** Number of leading decimal digits. */
  function DigitRun(s: string): nat {
    if s != "" && IsDecimal(s[0]) then 1 + DigitRun(s[1..]) else 0
  }

  lemma {:induction false} RunsInside(s: string)
    ensures Blanks(s) <= |s| && DigitRun(s) <= |s|
    ensures forall k | 0 <= k < DigitRun(s) :: IsDecimal(s[k])
  {
    if s == "" {
    } else {
      RunsInside(s[1..]);
    }
  }

  function Unblanked(s: string): string {
    RunsInside(s); s[Blanks(s)..]
  }

  /** The unsigned part, after blanks and at most one sign. */
  function Unsigned(s: string): string {
    var t := Unblanked(s);
    if t != "" && (t[0] == '-' || t[0] == '+') then t[1..] else t
  }

  function Magnitude(s: string): int {
    var t := Unsigned(s);
    RunsInside(t);
    Value(t[..DigitRun(t)], 10)
  }

  function Parsed(s: string): int {
    var t := Unblanked(s);
    if t != "" && t[0] == '-' then -Magnitude(s) else Magnitude(s)
  }

  lemma {:induction false} DigitRunConcat(d: string, t: string)
    requires forall c | c in d :: IsDecimal(c)
    requires t == "" || !IsDecimal(t[0])
    ensures DigitRun(d + t) == |d|
  {
    if d == "" {
      assert d + t == t;
    } else {
      assert d[0] in d && forall c | c in d[1..] :: c in d;
      assert (d + t)[1..] == d[1..] + t;
      DigitRunConcat(d[1..], t);
    }
  }

  lemma {:induction false} BlanksConcat(b: string, t: string)
    requires forall c | c in b :: c == ' ' || c == '\t'
    requires t == "" || (t[0] != ' ' && t[0] != '\t')
    ensures Blanks(b + t) == |b|
  {
    if b == "" {
      assert b + t == t;
    } else {
      assert b[0] in b && forall c | c in b[1..] :: c in b;
      assert (b + t)[1..] == b[1..] + t;
      BlanksConcat(b[1..], t);
    }
  }

  lemma NumeralDecimal(m: nat)
    ensures var d := Numeral(m, 10);
            && d != "" && Value(d, 10) == m && IsDecimal(d[0])
            && forall c | c in d :: IsDecimal(c)
  {
    var d := Numeral(m, 10);
    NumeralMeans(m, 10);
    assert forall c | c in d :: 0 <= DigitValue(c) < 10 ==> IsDecimal(c);
    assert d[0] in d;
  }

  lemma MagnitudeOf(s: string, d: string, rest: string)
    requires Unsigned(s) == d + rest
    requires forall c | c in d :: IsDecimal(c)
    requires rest == "" || !IsDecimal(rest[0])
    ensures Magnitude(s) == Value(d, 10)
  {
    DigitRunConcat(d, rest);
    assert (d + rest)[..|d|] == d;
  }

  lemma UnblankedOf(s: string, blanks: string, t: string)
    requires s == blanks + t
    requires forall c | c in blanks :: c == ' ' || c == '\t'
    requires t == "" || (t[0] != ' ' && t[0] != '\t')
    ensures Unblanked(s) == t
  {
    BlanksConcat(blanks, t);
    RunsInside(s);
  }

  lemma UnsignedOf(s: string, sign: string, u: string)
    requires sign in {"", "+", "-"} && Unblanked(s) == sign + u
    requires sign == "" && u != "" ==> u[0] != '+' && u[0] != '-'
    ensures Unsigned(s) == u
    ensures Parsed(s) == if sign == "-" then -Magnitude(s) else Magnitude(s)
  {
    if sign == "" {
      assert sign + u == u;
    } else {
      assert (sign + u)[1..] == u;
    }
  }

  lemma FirstBehind(sign: string, d: string, rest: string)
    requires sign in {"", "+", "-"} && forall c | c in d :: '0' <= c <= '9'
    requires sign == "" && d == "" && rest != "" ==> rest[0] !in {' ', '\t', '+', '-'}
    ensures var t := sign + (d + rest); t != "" ==> t[0] != ' ' && t[0] != '\t'
    ensures var u := d + rest; sign == "" && u != "" ==> u[0] != '+' && u[0] != '-'
  {
    assert d != "" ==> d[0] in d;
  }

  /** What the parser makes of any string: blanks, at most one sign, digits, and whatever comes then. */
  lemma ParseMeans(blanks: string, sign: string, d: string, rest: string)
    requires forall c | c in blanks :: c == ' ' || c == '\t'
    requires sign in {"", "+", "-"} && forall c | c in d :: '0' <= c <= '9'
    requires rest != "" ==> !('0' <= rest[0] <= '9')
    requires sign == "" && d == "" && rest != "" ==> rest[0] !in {' ', '\t', '+', '-'}
    ensures Magnitude(blanks + (sign + (d + rest))) == Value(d, 10)
    ensures Parsed(blanks + (sign + (d + rest))) == if sign == "-" then -Value(d, 10) else Value(d, 10)
  {
    var u := d + rest;
    var s := blanks + (sign + u);
    FirstBehind(sign, d, rest);
    UnblankedOf(s, blanks, sign + u);
    UnsignedOf(s, sign, u);
    MagnitudeOf(s, d, rest);
  }

  lemma ConcatToRight(a: string, b: string, c: string, d: string)
    ensures a + (b + c) + d == a + (b + (c + d))
  {
  }

  /** The parser gives back every number the printer writes, whatever blanks stand before it and
      whatever other than a digit comes after. */
  lemma ParsePrinted(n: int, blanks: string, rest: string)
    requires forall c | c in blanks :: c == ' ' || c == '\t'
    requires rest == "" || !IsDecimal(rest[0])
    ensures Parsed(blanks + Signed(n, 10) + rest) == n
    ensures Magnitude(blanks + Signed(n, 10) + rest) == if n < 0 then -n else n
  {
    var m := if n < 0 then -n else n;
    var d := Numeral(m, 10);
    NumeralDecimal(m);
    var sign := if n < 0 then "-" else "";
    assert Signed(n, 10) == sign + d;
    ConcatToRight(blanks, sign, d, rest);
    ParseMeans(blanks, sign, d, rest);
  }

  /** Printing with "%d" and parsing is the identity on every int but the least one. */
  lemma PrintParse(n: Int32)
    requires n > -0x8000_0000
    ensures WellFormed("%d", [IntArg(n)])
    ensures Parsed(Formatted("%d", [IntArg(n)])) == n
    ensures Magnitude(Formatted("%d", [IntArg(n)])) <= 0x7fff_ffff
  {
    var f: CString := "%d";
    assert f[2..] == "";
    assert Formatted(f, [IntArg(n)]) == Signed(n, 10) + "";
    assert Signed(n, 10) + "" == "" + Signed(n, 10) + "";
    ParsePrinted(n, "", "");
  }
}
