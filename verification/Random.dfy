/** The pseudo-random generator: a linear congruential step on a 32-bit seed. */
module Random {
  const MODULUS: nat := 0x1_0000_0000
  const MULTIPLIER: nat := 1103515245
  const INCREMENT: nat := 12345

  type Seed = n: nat | n < MODULUS

  function Next(seed: Seed): Seed {
    (seed * MULTIPLIER + INCREMENT) % MODULUS
  }

  /** `(seed >> 16) & 0x7fff` */
  function Output(seed: Seed): nat {
    seed / 0x1_0000 % 0x8000
  }

  /** The number handed out is what bits 16 to 30 of the seed stand for. */
  lemma OutputBits(seed: Seed)
    ensures Output(seed) <= 0x7fff
    ensures Output(seed) * 0x1_0000 <= seed % 0x8000_0000 < (Output(seed) + 1) * 0x1_0000
  {
  }

  function Iterate(n: nat, seed: Seed): Seed {
    if n == 0 then seed else Next(Iterate(n - 1, seed))
  }

  class Generator {
    var seed: Seed

    constructor ()
      ensures seed == 1
    {
      seed := 1;
    }

    method Rand() returns (r: nat)
      modifies this
      ensures seed == Next(old(seed)) && r == Output(seed)
      ensures seed == (old(seed) * 1103515245 + 12345) % 0x1_0000_0000
      ensures r <= 0x7fff && r * 0x1_0000 <= seed % 0x8000_0000 < (r + 1) * 0x1_0000
    {
      seed := (seed * MULTIPLIER + INCREMENT) % MODULUS;
      r := seed / 0x1_0000 % 0x8000;
      OutputBits(seed);
    }

    method SRand(value: Seed)
      modifies this
      ensures seed == value
    {
      seed := value;
    }
  }

  // ----- the step repeated 2^k times, as an affine map over the integers

  function Pow2(k: nat): nat {
    if k == 0 then 1 else 2 * Pow2(k - 1)
  }

  /** Factor and offset of the 2^k-fold step. */
  function Factor(k: nat): nat {
    if k == 0 then MULTIPLIER else Factor(k - 1) * Factor(k - 1)
  }

  function Offset(k: nat): nat {
    if k == 0 then INCREMENT else Offset(k - 1) * (Factor(k - 1) + 1)
  }

  lemma {:induction false} IterateSum(m: nat, n: nat, seed: Seed)
    ensures Iterate(m + n, seed) == Iterate(m, Iterate(n, seed))
  {
    if m == 0 {
    } else {
      IterateSum(m - 1, n, seed);
    }
  }

  lemma SmallMultiple(m: nat, d: int)
    requires m > 0
    ensures -(m as int) < m * d < m ==> d == 0
  {
    if d > 0 {
      assert m * d == m + m * (d - 1);
    } else if d < 0 {
      assert m * d == -(m as int) - m * (-d - 1);
    }
  }

  lemma ModUnique(a: int, b: int, q: int, m: nat)
    requires m > 0 && a == b + m * q
    ensures a % m == b % m
  {
    var qa, qb := a / m, b / m;
    assert a == m * qa + a % m && b == m * qb + b % m;
    assert m * (qa - qb - q) == m * qa - m * qb - m * q;
    SmallMultiple(m, qa - qb - q);
  }

  /** An affine map applied twice, reducing in between or not. */
  lemma AffineTwice(a: nat, c: nat, s: nat, m: nat, a': nat, c': nat)
    requires m > 0 && a' == a * a && c' == c * (a + 1)
    ensures (a * ((a * s + c) % m) + c) % m == (a' * s + c') % m
  {
    var x := a * s + c;
    var q := x / m;
    assert x == m * q + x % m;
    assert a * x == a * (m * q) + a * (x % m);
    assert a * (m * q) == m * (a * q);
    assert a * x == a * a * s + a * c;
    ModUnique(a * a * s + c * (a + 1), a * (x % m) + c, a * q, m);
  }

  lemma {:induction false} IterateTwice(half: nat, a: nat, c: nat, a': nat, c': nat, seed: Seed)
    requires a' == a * a && c' == c * (a + 1)
    requires Iterate(half, seed) == (a * seed + c) % MODULUS
    requires Iterate(half, Iterate(half, seed)) == (a * Iterate(half, seed) + c) % MODULUS
    ensures Iterate(2 * half, seed) == (a' * seed + c') % MODULUS
  {
    IterateSum(half, half, seed);
    AffineTwice(a, c, seed, MODULUS, a', c');
  }

  lemma {:induction false} IteratePow2(k: nat, seed: Seed)
    ensures Iterate(Pow2(k), seed) == (Factor(k) * seed + Offset(k)) % MODULUS
  {
    if k == 0 {
      assert Iterate(1, seed) == Next(Iterate(0, seed));
    } else {
      var half := Pow2(k - 1);
      IteratePow2(k - 1, seed);
      IteratePow2(k - 1, Iterate(half, seed));
      IterateTwice(half, Factor(k - 1), Offset(k - 1), Factor(k), Offset(k), seed);
    }
  }

  lemma SquareShape(p: nat, q: nat, u: nat, f: nat) returns (u': nat)
    requires q == 2 * p && f == 1 + 4 * p * u
    ensures f * f == 1 + 4 * q * u'
  {
    var y := p * u;
    u' := u + 2 * y * u;
    var x := 4 * y;
    assert f == 1 + x;
    assert (1 + x) * (1 + x) == 1 + 2 * x + x * x;
    assert x * x == 16 * (y * y);
    assert q * u' == 2 * (p * u) + 4 * ((p * u) * y);
  }

  lemma OffsetShape(p: nat, q: nat, u: nat, w: nat, f: nat, o: nat) returns (w': nat)
    requires q == 2 * p && f == 1 + 4 * p * u && o == p * (2 * w + 1)
    ensures o * (f + 1) == q * (2 * w' + 1)
  {
    var c, y := 2 * w + 1, p * u;
    w' := w + y * c;
    assert p * c * (2 + 4 * y) == 2 * (p * c) + 4 * (p * c) * y;
    assert 2 * p * (2 * w' + 1) == 2 * p * (c + 2 * (y * c));
    assert 2 * p * (c + 2 * (y * c)) == 2 * (p * c) + 4 * (p * c) * y;
  }

  /** The factor is 1 modulo 2^(k+2); the offset is an odd multiple of 2^k. */
  lemma {:induction false} AffineShape(k: nat) returns (u: nat, w: nat)
    ensures Factor(k) == 1 + 4 * Pow2(k) * u
    ensures Offset(k) == Pow2(k) * (2 * w + 1)
  {
    if k == 0 {
      u, w := 275878811, 6172;
    } else {
      var p, q := Pow2(k - 1), Pow2(k);
      u, w := AffineShape(k - 1);
      w := OffsetShape(p, q, u, w, Factor(k - 1), Offset(k - 1));
      u := SquareShape(p, q, u, Factor(k - 1));
    }
  }

  lemma {:induction false} Pow2Sum(j: nat, k: nat)
    ensures Pow2(j + k) == Pow2(j) * Pow2(k)
    ensures Pow2(k) > 0
  {
    if j > 0 {
      Pow2Sum(j - 1, k);
    } else if k > 0 {
      Pow2Sum(0, k - 1);
    }
  }

  lemma Pow2Values()
    ensures Pow2(16) == 0x1_0000 && Pow2(30) == 0x4000_0000 && Pow2(31) == 0x8000_0000 && Pow2(32) == MODULUS
  {
    assert Pow2(4) == 16 && Pow2(8) == 256;
    Pow2Sum(8, 8);
    Pow2Sum(16, 16);
    assert Pow2(32) == 2 * Pow2(31) && Pow2(31) == 2 * Pow2(30);
  }

  lemma Doubled(p: int, a: int, h: int)
    requires a == 2 * h
    ensures p * a == 2 * p * h
  {
  }

  lemma TimesDifference(a: int, b: int, c: int)
    ensures a * (b - c) == a * b - a * c
  {
  }

  lemma FactorNonNegative(p: nat, i: int)
    requires p > 0 && p * i >= 0
    ensures i >= 0
  {
  }

  lemma Pow2Times(k: nat, x: int)
    requires k > 0
    ensures Pow2(k) * x == 2 * Pow2(k - 1) * x
  {
  }

  lemma TimesSum(a: int, b: int, c: int)
    ensures a * (b + c) == a * b + a * c
  {
  }

  lemma JumpAlgebra(p: nat, u: nat, w: nat, s: nat, r: nat, t: int)
    ensures (1 + 4 * p * u) * s + p * (2 * w + 1) - 2 * p * r * t == s + p + 2 * p * (2 * u * s + w - r * t)
  {
    assert (1 + 4 * p * u) * s == s + 4 * (p * (u * s));
    assert p * (2 * w + 1) == 2 * (p * w) + p;
    assert 2 * p * r * t == 2 * (p * (r * t));
    assert 2 * p * (2 * u * s + w - r * t) == 2 * (p * (2 * (u * s) + w - r * t));
    assert p * (2 * (u * s) + w - r * t) == 2 * (p * (u * s)) + p * w - p * (r * t);
  }

  lemma Reduced(x: int) returns (t: int)
    ensures x % MODULUS == x - MODULUS * t
  {
    t := x / MODULUS;
  }

  lemma SameProduct(a: int, b: int, c: int)
    requires a == b
    ensures a * c == b * c
  {
  }

  lemma JumpValue(k: nat, seed: Seed) returns (u: nat, w: nat, t: int)
    ensures Iterate(Pow2(k), seed) == (1 + 4 * Pow2(k) * u) * seed + Pow2(k) * (2 * w + 1) - MODULUS * t
  {
    u, w := AffineShape(k);
    IteratePow2(k, seed);
    SameProduct(Factor(k), 1 + 4 * Pow2(k) * u, seed);
    t := Reduced(Factor(k) * seed + Offset(k));
  }

  lemma ModulusSplit(k: nat) returns (r: nat)
    requires k < 32
    ensures MODULUS == 2 * Pow2(k) * r
  {
    r := Pow2(31 - k);
    Pow2Values();
    Pow2Sum(k + 1, 31 - k);
  }

  /** 2^k steps add 2^k to the state, modulo 2^(k+1). */
  lemma JumpAdds(k: nat, seed: Seed) returns (q: int)
    requires k < 32
    ensures Iterate(Pow2(k), seed) == seed + Pow2(k) + 2 * Pow2(k) * q
  {
    var u, w, t := JumpValue(k, seed);
    var r := ModulusSplit(k);
    q := 2 * u * seed + w - r * t;
    JumpAlgebra(Pow2(k), u, w, seed, r, t);
  }

  /** `n` such jumps add n * 2^k, modulo 2^(k+1). */
  lemma {:induction false} JumpsAdd(k: nat, n: nat, seed: Seed) returns (q: int)
    requires k < 32
    ensures Iterate(Pow2(k) * n, seed) == seed + Pow2(k) * n + 2 * Pow2(k) * q
    decreases n
  {
    var p := Pow2(k);
    if n == 0 {
      q := 0;
      assert p * n == 0;
    } else {
      var q0 := JumpsAdd(k, n - 1, seed);
      var mid := Iterate(p * (n - 1), seed);
      var q1 := JumpAdds(k, mid);
      q := q0 + q1;
      TimesSum(p, 1, n - 1);
      TimesSum(2 * p, q0, q1);
      IterateSum(p, p * (n - 1), seed);
    }
  }

  /** A run that comes back modulo 2^k takes a multiple of 2^k steps. */
  lemma {:induction false} ReturnDivides(k: nat, n: nat, seed: Seed, e: int) returns (j: int)
    requires k <= 32
    requires Iterate(n, seed) == seed + Pow2(k) * e
    ensures n == Pow2(k) * j
    decreases k
  {
    if k == 0 {
      j := n;
    } else {
      var p := Pow2(k - 1);
      Pow2Sum(0, k - 1);
      Doubled(p, 2 * e, e);
      Pow2Times(k, e);
      var i := ReturnDivides(k - 1, n, seed, 2 * e);
      FactorNonNegative(p, i);
      var q := JumpsAdd(k - 1, i, seed);
      j := e - q;
      TimesDifference(2 * p, e, q);
      Pow2Times(k, e);
      Pow2Times(k, j);
    }
  }

  /** From any seed, some run of less than 2^k steps reaches the target modulo 2^k. */
  lemma {:induction false} ReachesModulo(k: nat, seed: Seed, target: Seed) returns (n: nat, e: int)
    requires k <= 32
    ensures n < Pow2(k)
    ensures Iterate(n, seed) == target + Pow2(k) * e
    decreases k
  {
    if k == 0 {
      n, e := 0, seed - target;
    } else {
      var p := Pow2(k - 1);
      var e0: int;
      n, e0 := ReachesModulo(k - 1, seed, target);
      if e0 % 2 == 0 {
        e := e0 / 2;
        Doubled(p, e0, e);
        Pow2Times(k, e);
      } else {
        var q := JumpAdds(k - 1, Iterate(n, seed));
        IterateSum(p, n, seed);
        n := p + n;
        var h := e0 / 2 + 1;
        assert e0 == 2 * (e0 / 2) + e0 % 2 && e0 % 2 == 1;
        e := h + q;
        TimesSum(2 * p, h, q);
        TimesSum(p, e0, 1);
        Doubled(p, e0 + 1, h);
        Pow2Times(k, e);
      }
    }
  }

  lemma TurnAlgebra(p: nat, u: nat, o: nat, s: nat)
    ensures (1 + 4 * p * u) * s + p * o == s + p * (4 * (u * s) + o)
  {
    assert (1 + 4 * p * u) * s == s + 4 * (p * (u * s));
    TimesSum(p, 4 * (u * s), o);
  }

  lemma TurnReduces(a: int, seed: Seed, q: int)
    requires a == seed + MODULUS * q
    ensures a % MODULUS == seed
  {
  }

  lemma OneTurn(seed: Seed)
    ensures Iterate(MODULUS, seed) == seed
  {
    var p := Pow2(32);
    assert p == MODULUS by { Pow2Values(); }
    var u, w := AffineShape(32);
    IteratePow2(32, seed);
    var a := Factor(32) * seed + Offset(32);
    var q := 4 * (u * seed) + (2 * w + 1);
    assert a == seed + p * q by { TurnAlgebra(p, u, 2 * w + 1, seed); }
    TurnReduces(a, seed, q);
  }

  /** 2^32 steps, and hence every multiple of them, come back to the seed. */
  lemma {:induction false} FullTurn(j: nat, seed: Seed)
    ensures Iterate(MODULUS * j, seed) == seed
  {
    if j == 0 {
    } else {
      FullTurn(j - 1, seed);
      OneTurn(seed);
      IterateSum(MODULUS * (j - 1), MODULUS, seed);
    }
  }

  lemma MultipleOfModulus(n: nat, j: int)
    ensures n == MODULUS * j ==> n % MODULUS == 0
    ensures n % MODULUS == 0 ==> n == MODULUS * (n / MODULUS)
  {
  }

  lemma ReturnsAtMultiples(n: nat, seed: Seed)
    requires Iterate(n, seed) == seed
    ensures n % MODULUS == 0
  {
    var j := ReturnDivides(32, n, seed, 0);
    assert n == MODULUS * j by {
      assert Pow2(32) == MODULUS by { Pow2Values(); }
    }
    MultipleOfModulus(n, j);
  }

  lemma MultiplesReturn(n: nat, seed: Seed)
    requires n % MODULUS == 0
    ensures Iterate(n, seed) == seed
  {
    MultipleOfModulus(n, 0);
    FullTurn(n / MODULUS, seed);
  }

  /** From every seed the state comes back after exactly the multiples of 2^32 steps. */
  lemma FullPeriod(n: nat, seed: Seed)
    ensures Iterate(n, seed) == seed <==> n % MODULUS == 0
  {
    if Iterate(n, seed) == seed {
      ReturnsAtMultiples(n, seed);
    } else if n % MODULUS == 0 {
      MultiplesReturn(n, seed);
    }
  }

  lemma Meets(seed: Seed, target: Seed) returns (n: nat)
    ensures n < MODULUS && Iterate(n, seed) == target
  {
    var e: int;
    n, e := ReachesModulo(32, seed, target);
    assert Pow2(32) == MODULUS by { Pow2Values(); }
    assert e == 0;
  }

  lemma MovesOn(n: nat, seed: Seed)
    requires 0 < n < MODULUS
    ensures Iterate(n, seed) != seed
  {
    if Iterate(n, seed) == seed {
      ReturnsAtMultiples(n, seed);
    }
  }

  lemma MeetsOnce(seed: Seed, m: nat, n: nat)
    requires m < n < MODULUS
    ensures Iterate(m, seed) != Iterate(n, seed)
  {
    IterateSum(n - m, m, seed);
    MovesOn(n - m, Iterate(m, seed));
  }

  /** Within one period every 32-bit value is met exactly once. */
  lemma EverySeedOnce(seed: Seed, target: Seed)
    ensures exists n :: 0 <= n < MODULUS && Iterate(n, seed) == target
    ensures forall m: nat, n: nat | m < n < MODULUS :: Iterate(m, seed) != Iterate(n, seed)
  {
    var n := Meets(seed, target);
    forall m: nat, n: nat | m < n < MODULUS ensures Iterate(m, seed) != Iterate(n, seed) {
      MeetsOnce(seed, m, n);
    }
  }

  // ----- the numbers handed out

  const OUTPUT_PERIOD: nat := 0x8000_0000

  ghost predicate Repeats(d: nat, seed: Seed) {
    forall n: nat :: Output(Iterate(n + d, seed)) == Output(Iterate(n, seed))
  }

  lemma OutputShift(x: Seed, y: Seed, half: bool, q: int)
    requires y == x + (if half then 0x4000_0000 else 0) + OUTPUT_PERIOD * q
    ensures Output(x) == Output(y) <==> !half
  {
  }

  lemma {:induction false} RepeatsMany(d: nat, m: nat, seed: Seed)
    requires Repeats(d, seed)
    ensures Repeats(d * m, seed)
  {
    if m == 0 {
      assert d * m == 0;
    } else {
      RepeatsMany(d, m - 1, seed);
      assert d * m == d * (m - 1) + d;
      forall n: nat ensures Output(Iterate(n + d * m, seed)) == Output(Iterate(n, seed)) {
        assert Output(Iterate(n + d * (m - 1) + d, seed)) == Output(Iterate(n + d * (m - 1), seed));
      }
    }
  }

  /** Every positive number is an odd multiple of a power of two. */
  lemma {:induction false} OddPart(d: nat) returns (i: nat, odd: nat)
    requires d > 0
    ensures d == Pow2(i) * odd && odd % 2 == 1
    decreases d
  {
    if d % 2 == 1 {
      i, odd := 0, d;
    } else {
      var j;
      j, odd := OddPart(d / 2);
      i := j + 1;
      assert d == 2 * (d / 2);
      assert 2 * (Pow2(j) * odd) == Pow2(i) * odd;
    }
  }

  lemma OutputReturns(j: nat, seed: Seed)
    ensures Output(Iterate(OUTPUT_PERIOD * j, seed)) == Output(seed)
  {
    assert Pow2(31) == OUTPUT_PERIOD by { Pow2Values(); }
    var q := JumpsAdd(31, j, seed);
    OutputShift(seed, Iterate(OUTPUT_PERIOD * j, seed), false, j + 2 * q);
  }

  lemma RepeatsAfter(j: nat, n: nat, seed: Seed)
    ensures Output(Iterate(n + OUTPUT_PERIOD * j, seed)) == Output(Iterate(n, seed))
  {
    IterateSum(OUTPUT_PERIOD * j, n, seed);
    OutputReturns(j, Iterate(n, seed));
  }

  /** An odd multiple of 2^30 steps flips the top bit shown. */
  lemma FlipsAfter(odd: nat, seed: Seed)
    requires odd % 2 == 1
    ensures Output(Iterate(0x4000_0000 * odd, seed)) != Output(seed)
  {
    var p := Pow2(30);
    assert p == 0x4000_0000 by { Pow2Values(); }
    var q := JumpsAdd(30, odd, seed);
    var h := odd / 2;
    assert odd == 2 * h + 1;
    var y := Iterate(p * odd, seed);
    assert y == seed + 0x4000_0000 * odd + 0x8000_0000 * q;
    OutputShift(seed, y, true, h + q);
  }

  lemma MultipleOfPeriod(d: nat, a: nat, b: nat)
    requires d == (OUTPUT_PERIOD * a) * b
    ensures d % OUTPUT_PERIOD == 0
  {
    assert d == OUTPUT_PERIOD * (a * b);
  }

  lemma SwapFactors(a: nat, b: nat, c: nat)
    ensures (a * b) * c == (a * c) * b
  {
  }

  lemma DoesNotRepeat(d: nat, seed: Seed)
    requires d % OUTPUT_PERIOD != 0
    ensures !Repeats(d, seed)
  {
    var i, odd := OddPart(d);
    assert i < 31 by {
      if i >= 31 {
        Pow2Values();
        Pow2Sum(31, i - 31);
        MultipleOfPeriod(d, Pow2(i - 31), odd);
      }
    }
    var m := Pow2(30 - i);
    assert d * m == 0x4000_0000 * odd by {
      Pow2Values();
      Pow2Sum(i, 30 - i);
      SwapFactors(Pow2(i), odd, m);
    }
    if Repeats(d, seed) {
      RepeatsMany(d, m, seed);
      assert Output(Iterate(0 + d * m, seed)) == Output(Iterate(0, seed));
    }
    FlipsAfter(odd, seed);
  }

  /** The numbers handed out repeat exactly at the multiples of 2^31: the top bit of the state is
      never shown. */
  lemma OutputPeriod(d: nat, seed: Seed)
    ensures Repeats(d, seed) <==> d % OUTPUT_PERIOD == 0
  {
    if d % OUTPUT_PERIOD == 0 {
      var j := d / OUTPUT_PERIOD;
      assert d == OUTPUT_PERIOD * j;
      forall n: nat ensures Output(Iterate(n + d, seed)) == Output(Iterate(n, seed)) {
        RepeatsAfter(j, n, seed);
      }
    } else {
      DoesNotRepeat(d, seed);
    }
  }
}
