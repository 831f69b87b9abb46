/** The decimal parser and the boot-time integer printer. */
module Conversion {
  import opened Arithmetic
  import opened Digits
  import opened Formatting
  import opened Stdio

  /** The character a pointer at index `p` reads. */
  function CharAt(s: CString, p: nat): char
    requires p <= |s|
  {
    if p == |s| then '\0' else s[p]
  }

  lemma BlanksFrom(s: CString, p: nat)
    requires p <= |s|
    ensures Blanks(s[p..]) == if p < |s| && (s[p] == ' ' || s[p] == '\t') then 1 + Blanks(s[p + 1..]) else 0
  {
    if p < |s| {
      assert s[p..][1..] == s[p + 1..];
    }
  }

  lemma DigitRunFrom(s: CString, p: nat)
    requires p <= |s|
    ensures DigitRun(s[p..]) == if p < |s| && IsDecimal(s[p]) then 1 + DigitRun(s[p + 1..]) else 0
  {
    if p < |s| {
      assert s[p..][1..] == s[p + 1..];
    }
  }

  lemma RunDecimal(t: string)
    ensures DigitRun(t) <= |t| && DigitsOf(t[..DigitRun(t)], 10)
  {
    RunsInside(t);
    var run := t[..DigitRun(t)];
    assert forall k | 0 <= k < |run| :: run[k] == t[k];
    assert forall c | c in run :: IsDecimal(c);
  }

  lemma NextDigit(s: string, start: nat, p: nat)
    requires start <= p < |s| && IsDecimal(s[p])
    ensures Value(s[start..p + 1], 10) == Value(s[start..p], 10) * 10 + (s[p] as int - '0' as int)
  {
    assert s[start..p + 1] == s[start..p] + [s[p]];
    ValueSnoc(s[start..p], s[p], 10);
  }

  /** The digits from `start` to `end` stand for no more than the whole run from `start` on. */
  lemma RunPart(s: string, start: nat, end: nat)
    requires start <= |s| && start <= end <= start + DigitRun(s[start..]) <= |s|
    ensures 0 <= Value(s[start..end], 10) <= Value(s[start..start + DigitRun(s[start..])], 10)
  {
    var n := DigitRun(s[start..]);
    var run := s[start..start + n];
    assert DigitsOf(run, 10) by {
      RunDecimal(s[start..]);
      assert s[start..][..n] == run;
    }
    PrefixValue(run, end - start, 10);
    assert run[..end - start] == s[start..end];
  }

  /** The value of the digits so far never exceeds the value of all of them, so reading one more
      cannot overflow when the whole does not. */
  lemma DigitsSoFar(s: CString, start: nat, p: nat)
    requires start <= p < |s| && IsDecimal(s[p])
    requires p - start < DigitRun(s[start..]) <= |s| - start
    ensures var run := s[start..start + DigitRun(s[start..])];
            var soFar := Value(s[start..p], 10);
            && 0 <= soFar
            && Value(s[start..p + 1], 10) == soFar * 10 + (s[p] as int - '0' as int) <= Value(run, 10)
  {
    RunPart(s, start, p);
    RunPart(s, start, p + 1);
    NextDigit(s, start, p);
  }

  lemma MagnitudeNonNegative(s: string)
    ensures Magnitude(s) >= 0
  {
    var t := Unsigned(s);
    RunDecimal(t);
    ValueRange(t[..DigitRun(t)], 10);
  }

  /** The digit loop (kernel/stdlib.c:58-61). */
  method ReadDigits(s: CString, start: nat) returns (result: Int32)
    requires start <= |s|
    requires DigitRun(s[start..]) <= |s| - start
    requires Value(s[start..start + DigitRun(s[start..])], 10) <= 0x7fff_ffff
    ensures result == Value(s[start..start + DigitRun(s[start..])], 10)
  {
    ghost var n := DigitRun(s[start..]);
    var p := start;
    result := 0;
    assert s[start..start] == "";
    while IsDecimal(CharAt(s, p))
      invariant start <= p <= |s|
      invariant p - start + DigitRun(s[p..]) == n
      invariant result == Value(s[start..p], 10)
      decreases |s| - p
    {
      DigitRunFrom(s, p);
      DigitsSoFar(s, start, p);
      result := result * 10 + (CharAt(s, p) as int - '0' as int);
      p := p + 1;
    }
    DigitRunFrom(s, p);
  }

  /** The blank-skipping loop (kernel/stdlib.c:45-47). */
  method SkipBlanks(s: CString) returns (p: nat)
    ensures p == Blanks(s) <= |s| && Unblanked(s) == s[p..]
  {
    p := 0;
    assert s[0..] == s;
    while CharAt(s, p) == ' ' || CharAt(s, p) == '\t'
      invariant 0 <= p <= |s| && p + Blanks(s[p..]) == Blanks(s)
      decreases |s| - p
    {
      BlanksFrom(s, p);
      p := p + 1;
    }
    BlanksFrom(s, p);
  }

  lemma MagnitudeFrom(s: CString, start: nat)
    requires start <= |s| && Unsigned(s) == s[start..]
    ensures DigitRun(s[start..]) <= |s| - start
    ensures Magnitude(s) == Value(s[start..start + DigitRun(s[start..])], 10)
  {
    RunsInside(s[start..]);
    assert s[start..][..DigitRun(s[start..])] == s[start..start + DigitRun(s[start..])];
  }

  method Atoi(s: CString) returns (r: Int32)
    requires Magnitude(s) <= 0x7fff_ffff
    ensures r == Parsed(s)
  {
    var sign := 1;
    var p := SkipBlanks(s);
    if CharAt(s, p) == '-' {
      sign := -1;
      p := p + 1;
    } else if CharAt(s, p) == '+' {
      p := p + 1;
    }
    assert Unsigned(s) == s[p..];
    MagnitudeFrom(s, p);
    MagnitudeNonNegative(s);
    var result := ReadDigits(s, p);
    r := result * sign;
  }

  const TABLE: string := "0123456789abcdef"

  function Backwards(n: nat, base: nat): string
    requires 2 <= base <= 36
  {
    Reversed(Numeral(n, base))
  }

  lemma TableDigit(d: nat)
    requires d < 16
    ensures |TABLE| == 16 && TABLE[d] == Digit(d)
  {
  }

  /** The digit one turn of the loop writes, and the digits still to come. */
  lemma BackwardsStep(n: nat, base: nat) returns (digit: char, rest: string)
    requires 2 <= base <= 16
    ensures 0 <= n / base && 0 <= n - n / base * base < 16 && TABLE[n - n / base * base] == digit
    ensures n / base != 0 ==> n / base < n && rest == Backwards(n / base, base)
    ensures n / base == 0 ==> rest == ""
    ensures Backwards(n, base) == [digit] + rest
  {
    var s := Numeral(n, base);
    QuotRem(n, base);
    digit, rest := Digit(Rem(n, base)), if n / base == 0 then "" else Backwards(n / base, base);
    TableDigit(Rem(n, base));
    if n >= base {
      assert s[..|s| - 1] == Numeral(Quot(n, base), base);
    } else {
      assert s == [Digit(n)] && s[..0] == "";
      assert Reversed(s) == [Digit(n)];
    }
  }

  lemma WrittenStep(all: string, done: string, n: nat, base: nat) returns (digit: char)
    requires 2 <= base <= 16 && all == done + Backwards(n, base)
    ensures 0 <= n / base && 0 <= n - n / base * base < 16 && TABLE[n - n / base * base] == digit
    ensures |done| < |all|
    ensures if n / base == 0 then all == done + [digit]
            else n / base < n && all == (done + [digit]) + Backwards(n / base, base)
  {
    var rest: string;
    digit, rest := BackwardsStep(n, base);
    assert done + ([digit] + rest) == (done + [digit]) + rest;
  }

  /** The digit loop (kernel/kernel.c:414-418): a first digit in any case. */
  method WriteByTable(str: array<char>, initial: nat, base: nat) returns (p: nat)
    requires 2 <= base <= 16 && |Backwards(initial, base)| <= str.Length
    modifies str
    ensures p == |Backwards(initial, base)| && str[..p] == Backwards(initial, base)
    ensures forall k | p <= k < str.Length :: str[k] == old(str[k])
  {
    var value: nat := initial;
    p := 0;
    ghost var all := Backwards(initial, base);
    while true
      invariant p <= |all| && all == str[..p] + Backwards(value, base)
      invariant forall k | |all| <= k < str.Length :: str[k] == old(str[k])
      decreases value
    {
      ghost var done := str[..p];
      ghost var digit := WrittenStep(all, done, value, base);
      var tmp := value;
      value := value / base;
      str[p] := TABLE[tmp - value * base];
      p := p + 1;
      assert str[..p] == done + [digit];
      if value == 0 {
        break;
      }
    }
  }

  method Itoa(value: nat, str: array<char>, base: nat)
    requires 2 <= base <= 16 && value < 0x8000_0000
    requires |Numeral(value, base)| < str.Length
    modifies str
    ensures Holds(str, Numeral(value, base)) && str[|Numeral(value, base)|] == '\0'
  {
    ReversedAt(Numeral(value, base));
    ReversedTwice(Numeral(value, base));
    var p := WriteByTable(str, value, base);
    str[p] := '\0';
    ReversePrefix(str, p);
  }
}
