/** Facts about multiplication and division that the solver needs to be told. */
module Arithmetic {
  function Min(a: int, b: int): int { if a < b then a else b }

  function Max(a: int, b: int): int { if a < b then b else a }

  lemma MulMono(c: nat, a: int, b: int)
    requires a <= b
    ensures c * a <= c * b
  {
  }

  lemma TimesNext(c: int, i: int)
    ensures c * (i + 1) == c * i + c && (1 + i) * c == i * c + c
  {
  }

  lemma DivIff(n: nat, d: nat, q: int)
    requires d > 0
    ensures q == n / d <==> d * q <= n < d * q + d
  {
    var q0 := n / d;
    assert d * q0 <= n < d * q0 + d;
    if q < q0 {
      MulMono(d, q + 1, q0);
    } else if q > q0 {
      MulMono(d, q0 + 1, q);
    }
  }

  lemma DivModOf(q: nat, r: nat, d: nat)
    requires r < d
    ensures (q * d + r) / d == q && (q * d + r) % d == r
    ensures q > 0 ==> q * d + r >= d
  {
    var n := q * d + r;
    DivIff(n, d, q);
    assert n == d * (n / d) + n % d;
    if q > 0 { MulMono(d, 1, q); }
  }

  /** Quotient and remainder by repeated subtraction. Functions that recurse on quotients by a
      variable divisor are written with these, which spares the solver non-linear terms. */
  function Quot(n: nat, d: nat): (q: nat)
    requires d > 0
    ensures d >= 2 && n > 0 ==> q < n
    ensures q == 0 <==> n < d
  {
    if n < d then 0 else 1 + Quot(n - d, d)
  }

  function Rem(n: nat, d: nat): (r: nat)
    requires d > 0
    ensures r < d
  {
    if n < d then n else Rem(n - d, d)
  }

  /** They are the built-in operators on naturals. */
  lemma {:induction false} QuotRem(n: nat, d: nat)
    requires d > 0
    ensures Quot(n, d) == n / d && Rem(n, d) == n % d
    ensures n == Quot(n, d) * d + Rem(n, d)
  {
    if n >= d {
      QuotRem(n - d, d);
      var q, r := Quot(n - d, d), Rem(n - d, d);
      TimesNext(d, q);
      DivModOf(1 + q, r, d);
    } else {
      assert 0 * d + n == n;
      DivModOf(0, n, d);
    }
  }

  lemma {:induction false} QuotRemOf(q: nat, r: nat, d: nat)
    requires r < d
    ensures q * d + r >= 0 && Quot(q * d + r, d) == q && Rem(q * d + r, d) == r
  {
    if q == 0 {
    } else {
      assert q * d + r == (q - 1) * d + r + d;
      QuotRemOf(q - 1, r, d);
    }
  }
}
