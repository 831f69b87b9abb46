/** Numerals in bases 2 to 36, most significant digit first. */
module Digits {
  import opened Arithmetic

  function Digit(d: nat): char
    requires d < 36
  {
    if d > 9 then 'a' + (d - 10) as char else '0' + d as char
  }

  /** The digits in order. */
  lemma DigitTable(d: nat)
    requires d < 36
    ensures Digit(d) == "0123456789abcdefghijklmnopqrstuvwxyz"[d]
  {
  }

  function DigitValue(c: char): int {
    if '0' <= c <= '9' then c as int - '0' as int
    else if 'a' <= c <= 'z' then c as int - 'a' as int + 10
    else -1
  }

  function Numeral(n: nat, base: nat): string
    requires 2 <= base <= 36
    decreases n
  {
    if n < base then [Digit(n)]
    else Numeral(Quot(n, base), base) + [Digit(Rem(n, base))]
  }

  function Signed(n: int, base: nat): string
    requires 2 <= base <= 36
  {
    if n < 0 then "-" + Numeral(-n, base) else Numeral(n, base)
  }

  /** The number a string of digits stands for. */
  function Value(s: string, base: nat): int {
    if s == "" then 0 else Value(s[..|s| - 1], base) * base + DigitValue(s[|s| - 1])
  }

  ghost predicate DigitsOf(s: string, base: nat) {
    forall c | c in s :: 0 <= DigitValue(c) < base
  }

  /** At least one digit, all in the base, and no leading zero except for zero itself. */
  ghost predicate Canonical(s: string, base: nat) {
    s != "" && DigitsOf(s, base) && (s[0] == '0' ==> |s| == 1)
  }

  lemma ValueSnoc(s: string, c: char, base: nat)
    ensures Value(s + [c], base) == Value(s, base) * base + DigitValue(c)
  {
    assert (s + [c])[..|s|] == s;
  }

  /** A numeral is canonical and stands for its number. */
  lemma {:induction false} NumeralMeans(n: nat, base: nat)
    requires 2 <= base <= 36
    ensures Canonical(Numeral(n, base), base)
    ensures Value(Numeral(n, base), base) == n
    ensures Numeral(n, base)[0] == '0' ==> n == 0
    decreases n
  {
    if n < base {
      assert [Digit(n)][..0] == "";
    } else {
      QuotRem(n, base);
      NumeralMeans(Quot(n, base), base);
      ValueSnoc(Numeral(Quot(n, base), base), Digit(Rem(n, base)), base);
    }
  }

  lemma {:induction false} ValueRange(s: string, base: nat)
    requires 2 <= base <= 36 && DigitsOf(s, base)
    ensures Value(s, base) >= 0
    ensures s != "" && s[0] != '0' ==> Value(s, base) > 0
  {
    if s == "" {
    } else {
      var t := s[..|s| - 1];
      assert forall c | c in t :: c in s;
      assert s[|s| - 1] in s;
      ValueRange(t, base);
      MulMono(Value(t, base), 1, base);
    }
  }

  lemma {:induction false} PrefixValue(s: string, k: nat, base: nat)
    requires 2 <= base <= 36 && DigitsOf(s, base) && k <= |s|
    ensures 0 <= Value(s[..k], base) <= Value(s, base)
  {
    ValueRange(s, base);
    if k < |s| {
      var t := s[..|s| - 1];
      assert forall c | c in t :: c in s;
      assert s[|s| - 1] in s;
      PrefixValue(t, k, base);
      assert s[..k] == t[..k];
      MulMono(Value(t, base), 1, base);
    } else {
      assert s[..k] == s;
    }
  }

  lemma NumeralSnoc(v: nat, d: nat, base: nat)
    requires 2 <= base <= 36 && v > 0 && d < base
    ensures Numeral(v * base + d, base) == Numeral(v, base) + [Digit(d)]
  {
    QuotRemOf(v, d, base);
    MulMono(base, 1, v);
  }

  lemma DigitBack(c: char)
    requires DigitValue(c) >= 0
    ensures DigitValue(c) < 36 && Digit(DigitValue(c)) == c
  {
  }

  ghost predicate IsNumeral(s: string, base: nat)
    requires 2 <= base <= 36
  {
    Value(s, base) >= 0 && s == Numeral(Value(s, base), base)
  }

  lemma NumeralOfDigit(c: char, base: nat)
    requires 2 <= base <= 36 && 0 <= DigitValue(c) < base
    ensures IsNumeral([c], base)
  {
    DigitBack(c);
    ValueSnoc("", c, base);
    assert "" + [c] == [c];
  }

  lemma NumeralGrows(t: string, c: char, base: nat)
    requires 2 <= base <= 36 && Canonical(t, base) && t[0] != '0' && IsNumeral(t, base)
    requires 0 <= DigitValue(c) < base
    ensures IsNumeral(t + [c], base)
  {
    ValueRange(t, base);
    DigitBack(c);
    ValueSnoc(t, c, base);
    NumeralSnoc(Value(t, base), DigitValue(c), base);
  }

  lemma CanonicalParts(t: string, c: char, base: nat)
    requires Canonical(t + [c], base)
    ensures 0 <= DigitValue(c) < base
    ensures t != "" ==> Canonical(t, base) && t[0] != '0'
  {
    var s := t + [c];
    assert c in s && (forall d | d in t :: d in s) && (t != "" ==> t[0] == s[0]);
  }

  /** Only the numeral itself is a canonical string for its number. */
  lemma {:induction false} NumeralUnique(s: string, base: nat)
    requires 2 <= base <= 36 && Canonical(s, base)
    ensures IsNumeral(s, base)
  {
    var t, last := s[..|s| - 1], s[|s| - 1];
    assert s == t + [last];
    CanonicalParts(t, last, base);
    if t == "" {
      NumeralOfDigit(last, base);
      assert s == [last];
    } else {
      NumeralUnique(t, base);
      NumeralGrows(t, last, base);
    }
  }

  function Pow10(k: nat): nat {
    if k == 0 then 1 else 10 * Pow10(k - 1)
  }

  /** A number below 10^k has at most k decimal digits. */
  lemma {:induction false} NinesLength(k: nat, n: nat)
    requires n < Pow10(k) && k > 0
    ensures |Numeral(n, 10)| <= k
  {
    if n < 10 {
    } else {
      QuotRem(n, 10);
      NinesLength(k - 1, Quot(n, 10));
    }
  }

  /** A 32-bit number has at most ten decimal digits. */
  lemma TenDigits(n: nat)
    requires n < 0x1_0000_0000
    ensures |Numeral(n, 10)| <= 10
  {
    assert Pow10(5) == 100000 && Pow10(10) == 100000 * Pow10(5);
    NinesLength(10, n);
  }

  // ----- least significant digit first, as the printers produce them

  function Reversed(s: string): string {
    if s == "" then "" else [s[|s| - 1]] + Reversed(s[..|s| - 1])
  }

  /** The digits of `n`, last one first; none for zero. */
  function Produced(n: nat, base: nat): string
    requires 2 <= base <= 36
    decreases n
  {
    if n == 0 then "" else [Digit(Rem(n, base))] + Produced(Quot(n, base), base)
  }

  /** One more digit produced. */
  lemma ProducedStep(all: string, done: string, n: nat, base: nat)
    requires 2 <= base <= 36 && n > 0 && all == done + Produced(n, base)
    ensures 0 <= n / base < n && 0 <= n % base < base && |done| < |all|
    ensures all == (done + [Digit(n % base)]) + Produced(n / base, base)
  {
    QuotRem(n, base);
    var digit, rest := [Digit(n % base)], Produced(n / base, base);
    assert done + (digit + rest) == (done + digit) + rest;
  }

  lemma {:induction false} ReversedAt(s: string)
    ensures |Reversed(s)| == |s|
    ensures forall k | 0 <= k < |s| :: Reversed(s)[k] == s[|s| - 1 - k]
  {
    if s == "" {
    } else {
      ReversedAt(s[..|s| - 1]);
    }
  }

  /** Digits produced from the last on are the numeral backwards. */
  lemma {:induction false} ProducedNumeral(n: nat, base: nat)
    requires 2 <= base <= 36 && n > 0
    ensures Produced(n, base) == Reversed(Numeral(n, base))
    decreases n
  {
    var s := Numeral(n, base);
    if n < base {
      assert s[..0] == "";
    } else {
      ProducedNumeral(Quot(n, base), base);
      assert s[..|s| - 1] == Numeral(Quot(n, base), base);
    }
  }

  lemma ReversedTwice(s: string)
    ensures Reversed(Reversed(s)) == s
  {
    ReversedAt(s);
    ReversedAt(Reversed(s));
  }

  lemma ReversedSnoc(s: string, c: char)
    ensures Reversed(s + [c]) == [c] + Reversed(s)
  {
    assert (s + [c])[..|s|] == s;
  }
}
