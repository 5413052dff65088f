/** Division of a 128-bit integer by a 64-bit one through a Newton-Raphson reciprocal. */
module Newton {
  import opened Bits
  import opened Words
  import opened Wide

  const B63: int := 0x8000_0000_0000_0000
  const B105: int := 0x200_0000_0000_0000_0000_0000_0000
  const B108: int := 0x1000_0000_0000_0000_0000_0000_0000

  // ----- the floating-point first guess

  /** f is v >= 0 rounded to single precision: the relative error is at most 2^-24. */
  predicate Rounds(f: real, v: real) {
    16777215.0 * v <= 16777216.0 * f <= 16777217.0 * v
  }

  /** What the iteration needs of its start: a lower estimate of 2^128 / d, correct to about 20 bits. */
  ghost predicate GoodGuess(d: nat, x: nat) {
    0 < d * x <= B128 && B128 - d * x <= B108
  }

  lemma RealMulMonotone(m: real, a: real, b: real)
    requires m >= 0.0 && a <= b
    ensures m * a <= m * b
  {
    assert m * (b - a) >= 0.0;
  }

  /** Both roundings together: with k <= d <= 2k, floor(f) * d stays within 4k below 2^23 * k. */
  lemma RoundedQuotient(d: real, k: real, df: real, q: real, f: real)
    requires 0.0 < k <= d <= 2.0 * k
    requires Rounds(df, d)
    requires q * df == 8388607.0 * k && Rounds(f, q)
    ensures df > 0.0 && q > 0.0 && f > 0.0
    ensures f * d <= 8388608.0 * k
    ensures (8388608.0 - 2.0) * k <= f * d
  {
    RoundedPositive(q, df, 8388607.0 * k);
    // f * df is within 2^-24 of 8388607 * k, and f * d is within 2^-24 of f * df
    assert 16777216.0 * (f * df) <= 16777217.0 * (8388607.0 * k) by {
      RealMulMonotone(df, 16777216.0 * f, 16777217.0 * q);
    }
    assert 16777215.0 * (8388607.0 * k) <= 16777216.0 * (f * df) by {
      RealMulMonotone(df, 16777215.0 * q, 16777216.0 * f);
    }
    assert 16777215.0 * (f * d) <= 16777216.0 * (f * df) by {
      RealMulMonotone(f, 16777215.0 * d, 16777216.0 * df);
    }
    assert 16777216.0 * (f * df) <= 16777217.0 * (f * d) by {
      RealMulMonotone(f, 16777216.0 * df, 16777217.0 * d);
    }
  }

  lemma FloorTimes(d: nat, f: real, g: int, lo: int, hi: int)
    requires g == f.Floor
    requires lo as real <= f * (d as real) <= hi as real
    ensures lo <= g * d + d && g * d <= hi
  {
    var D, G := d as real, g as real;
    RealMulMonotone(D, G, f);
    RealMulMonotone(D, f, G + 1.0);
    assert G * D == (g * d) as real;
    assert (G + 1.0) * D == G * D + D;
    assert (g * d) as real + d as real == (g * d + d) as real;
  }

  lemma GuessIsGood(d: nat, k: nat, p: nat, f: real)
    requires 0 < k <= d < 2 * k && k * p == B105
    requires f > 0.0
    requires (8388608.0 - 2.0) * (k as real) <= f * (d as real) <= 8388608.0 * (k as real)
    ensures 0 <= f.Floor <= 8388608
    ensures GoodGuess(d, f.Floor * p)
  {
    var g := f.Floor;
    FloorTimes(d, f, g, 8388606 * k, 8388608 * k);
    if g > 8388608 {
      MulMonotone(d, 8388609, g);
    }
    assert d * (g * p) == (g * d) * p;
    MulMonotone(p, g * d, 8388608 * k);
    MulMonotone(p, 8388604 * k, g * d);
    assert p * (8388608 * k) == 8388608 * (k * p);
    assert p * (8388604 * k) == 8388604 * (k * p);
  }

  /** The single-precision division: the divisor is rounded first, then the quotient. */
  method FloatQuotient(numerator: real, divisor: real, ghost k: real) returns (frecip: real)
    requires 0.0 < k <= divisor <= 2.0 * k && numerator == 8388607.0 * k
    ensures frecip > 0.0
    ensures (8388608.0 - 2.0) * k <= frecip * divisor <= 8388608.0 * k
  {
    assert Rounds(divisor, divisor);
    var d :| Rounds(d, divisor);
    assert Rounds(d, divisor);
    var quotient := numerator / d;
    RoundedPositive(quotient, d, numerator);
    assert Rounds(quotient, quotient);
    frecip :| Rounds(frecip, quotient);
    assert Rounds(frecip, quotient);
    RoundedQuotient(divisor, k, d, quotient, frecip);
  }

  /**
   * Lines 974-984. Each conversion and division rounds in an unspecified way within half a unit in the
   * last place; the product 8388607 * 2^(63 - z) is exact in single precision.
   */
  method FirstGuess(divisor: u64) returns (x: Int128)
    requires divisor >= 2
    ensures GoodGuess(divisor, x.Value())
  {
    var z := CountLeadingZeros64(divisor);
    ghost var k, p := GuessScale(divisor, z);
    var guess := GuessMantissa(divisor, Pow2(63 - z), p);
    GuessFits(divisor, guess * p);
    var start := FromParts(0, guess);
    x := ShiftLeft(start, z + 42);
    DivModUnique(guess * p, B128, 0, guess * p);
  }

  method GuessMantissa(divisor: u64, k: nat, ghost p: nat) returns (guess: u64)
    requires 0 < k <= divisor < 2 * k && k * p == B105
    ensures GoodGuess(divisor, guess * p)
  {
    assert 0.0 < k as real <= divisor as real <= 2.0 * (k as real);
    var frecip := FloatQuotient(8388607.0 * (k as real), divisor as real, k as real);
    GuessIsGood(divisor, k, p, frecip);
    guess := frecip.Floor;
  }

  lemma GuessScale(d: nat, z: nat) returns (k: nat, p: nat)
    requires d >= 2 && z <= 63 && Pow2(63 - z) <= d < Pow2(64 - z)
    ensures z <= 62 && k == Pow2(63 - z) && p == Pow2(z + 42)
    ensures 0 < k <= d < 2 * k && k * p == B105
  {
    k, p := Pow2(63 - z), Pow2(z + 42);
    assert z < 63 by { assert Pow2(1) == 2; }
    Pow2Add(63 - z, z + 42);
    TwentyThree();
  }

  lemma RoundedPositive(q: real, d: real, n: real)
    requires d > 0.0 && n > 0.0 && q * d == n
    ensures q > 0.0
  {
    if q <= 0.0 {
      RealMulMonotone(d, q, 0.0);
    }
  }

  lemma TwentyThree()
    ensures Pow2(23) == 0x80_0000 && Pow2(105) == B105
  {
    var m := SmallPowers();
    Pow2Add(16, 4); Pow2Add(20, 2); Pow2Add(22, 1);
    PowersOfWords();
    Pow2Add(105, 23);
  }

  lemma GuessFits(d: nat, x: nat)
    requires d >= 2 && GoodGuess(d, x)
    ensures x < B128
  {
    MulMonotone(x, 2, d);
  }

  // ----- one Newton step

  /**
   * With E the residual 2^128 - d*x, the step x + floor(x*E / 2^128) leaves the residual
   * E*E / 2^128 + d*theta, where theta in [0, 1) is the part the truncation drops. So the estimate never
   * overshoots, and the relative error is squared.
   */
  lemma StepResidual(d: nat, x: nat, e: nat, t: nat, q: nat)
    requires d * x + e == B128
    requires x * e == B128 * q + t && t < B128
    ensures 0 <= B128 - d * (x + q)
    ensures (B128 - d * (x + q)) * B128 == e * e + d * t
  {
    var e1 := B128 - d * (x + q);
    calc {
      e1 * B128;
      { assert d * (x + q) == d * x + d * q; }
      e * B128 - (d * q) * B128;
      { assert (d * q) * B128 == d * (x * e) - d * t by { assert (d * q) * B128 == d * (B128 * q); } }
      e * (d * x + e) - d * (x * e) + d * t;
      { assert e * (d * x + e) == d * (x * e) + e * e; }
      e * e + d * t;
    }
    assert e * e >= 0 && d * t >= 0;
  }

  method NewtonStep(x: Int128, inva: Int128, ghost d: nat, ghost v: nat) returns (x1: Int128, ghost v1: nat)
    requires 2 <= d < B64 && inva.Value() == B128 - d
    requires v == x.Value() && 0 < d * v <= B128
    ensures v1 == x1.Value() && 0 < d * v1 <= B128
    ensures IsStep(d, v, x1.Value())
  {
    ghost var e := B128 - d * v;
    NegativeProduct(d, v, e);
    var y := MultLow(inva, x, B128 - d, v, e);
    var h := MultHigh(x, y, v, e);
    v1 := v + v * e / B128;
    StepIsStep(d, v, v1);
    GuessFitsBound(d, v1);
    x1 := Add(x, h);
  }

  /** v1 is v advanced by floor(v * e / 2^128), where e is the residual of v. */
  ghost predicate IsStep(d: nat, v: nat, v1: nat) {
    var e := B128 - d * v;
    v1 == v + v * e / B128 && (B128 - d * v1) * B128 == e * e + d * (v * e % B128)
  }

  lemma StepIsStep(d: nat, v: nat, v1: nat)
    requires 0 < d * v <= B128 && v1 == v + v * (B128 - d * v) / B128
    ensures IsStep(d, v, v1) && v <= v1 && 0 < d * v1 <= B128
  {
    var e := B128 - d * v;
    MulMonotone(v, 0, e);
    DivModSpec(v * e, B128);
    var q := v * e / B128;
    DivNat(v * e, B128);
    StepResidual(d, v, e, v * e % B128, q);
    MulMonotone(d, v, v + q);
  }

  // The 128-bit products again, on the numbers the words stand for.
  method MultLow(a: Int128, b: Int128, ghost va: nat, ghost vb: nat, ghost low: nat) returns (r: Int128)
    requires va == a.Value() && vb == b.Value() && va * vb % B128 == low
    ensures r.Value() == low
  {
    r := Mult128Lo(a, b);
  }

  method MultHigh(a: Int128, b: Int128, ghost va: nat, ghost vb: nat) returns (r: Int128)
    requires va == a.Value() && vb == b.Value()
    ensures r.Value() == va * vb / B128
  {
    r := Mult128Hi(a, b);
  }

  lemma GuessFitsBound(d: nat, x: nat)
    requires d >= 2 && d * x <= B128
    ensures 2 * x <= B128
  {
    MulMonotone(x, 2, d);
  }

  lemma NegativeProduct(d: nat, x: nat, e: nat)
    requires d * x + e == B128 && e < B128
    ensures ((B128 - d) * x) % B128 == e
  {
    if x == 0 {
      DivModUnique(0, B128, 0, 0);
    } else {
      assert (B128 - d) * x == B128 * (x - 1) + e;
      DivModUnique((B128 - d) * x, B128, x - 1, e);
    }
  }

  // ----- three steps

  lemma SquareBound(e: nat, b: nat)
    requires e <= b
    ensures e * e <= b * b
  {
    MulMonotone(e, e, b);
    MulMonotone(b, e, b);
  }

  /** From residual at most b, one step leaves at most c + d, when c * 2^128 covers b * b. */
  lemma ResidualShrinks(d: nat, e: nat, b: nat, c: nat, t: nat, e1: int)
    requires e <= b && b * b <= c * B128
    requires t < B128 && e1 * B128 == e * e + d * t
    ensures e1 <= c + d
  {
    SquareBound(e, b);
    MulMonotone(d, t, B128);
    if e1 > c + d {
      MulMonotone(B128, c + d + 1, e1);
    }
  }

  /** 2^49: above what two steps leave beyond d. */
  const B49: int := 0x2_0000_0000_0000

  lemma LastResidual(d: nat, e: nat, t: nat, e1: int)
    requires 2 <= d < B64 && e <= B49 + d
    requires t < B128 && e1 * B128 == e * e + d * t
    ensures e1 <= d + 1
  {
    SquareBound(e, B49 + B64);
    MulMonotone(d, t, B128);
    if e1 >= d + 2 {
      MulMonotone(B128, d + 2, e1);
    }
  }

  /** For the largest divisor the residual is 1 modulo d, which leaves it no room to reach 2^64. */
  lemma LastResidualTop(x: nat, e: nat, e1: int)
    requires (B64 - 1) * x + e == B128 && e <= B49 + (B64 - 1)
    requires e1 == B128 - (B64 - 1) * (x + x * e / B128)
    ensures e1 == 1
  {
    // x is 2^64 + 1 or 2^64
    assert x == B64 + 1 || x == B64;
    assert e == 1 || e == B64;
    if x == B64 {
      assert x * e == B128;
    } else {
      assert x * e == x;
    }
  }

  lemma ThreeSteps(d: nat, e0: nat, t0: nat, e1: nat, t1: nat, e2: nat)
    requires 2 <= d < B64 && e0 <= B108 && t0 < B128 && t1 < B128
    requires e1 * B128 == e0 * e0 + d * t0
    requires e2 * B128 == e1 * e1 + d * t1
    ensures e2 <= B49 + d
  {
    ResidualShrinks(d, e0, B108, 0x100_0000_0000_0000_0000_0000, t0, e1);
    ResidualShrinks(d, e1, 0x100_0000_0000_0000_0000_0000 + B64, 0x1_0000_0200_0001, t1, e2);
  }

  /** The reciprocal is exact for every divisor from 2 up to the largest 64-bit word. */
  method RecipNewton(divisor: u64) returns (x: Int128)
    requires divisor >= 2
    ensures x.Value() == B128 / divisor
  {
    var inva := FromParts(0xffff_ffff_ffff_ffff, Wrap64(0 - divisor as int));
    assert inva.Value() == B128 - divisor;
    var x0 := FirstGuess(divisor);
    ghost var d := divisor as int;
    ghost var v0 := x0.Value();
    var x1, v1 := NewtonStep(x0, inva, d, v0);
    var x2, v2 := NewtonStep(x1, inva, d, v1);
    var x3, v3 := NewtonStep(x2, inva, d, v2);
    ResidualAfterThree(d, v0, v1, v2, v3);
    x := FinalCheck(x3, divisor, v3, B128 - d * v3);
  }

  /** After three steps the residual is at most d + 1, and below 2^64. */
  lemma ResidualAfterThree(d: nat, v0: nat, v1: nat, v2: nat, v3: nat)
    requires 2 <= d < B64 && GoodGuess(d, v0)
    requires IsStep(d, v0, v1) && IsStep(d, v1, v2) && IsStep(d, v2, v3)
    requires d * v1 <= B128 && d * v2 <= B128 && d * v3 <= B128
    ensures B128 - d * v3 <= d + 1 && B128 - d * v3 < B64
  {
    var e0, e1, e2, e3 := B128 - d * v0, B128 - d * v1, B128 - d * v2, B128 - d * v3;
    ThreeSteps(d, e0, v0 * e0 % B128, e1, v1 * e1 % B128, e2);
    if d < B64 - 1 {
      LastResidual(d, e2, v2 * e2 % B128, e3);
    } else {
      LastResidualTop(v2, e2, e3);
    }
  }

  /** A residual of at most d + 1 is brought below d by adding 1 to the estimate when needed. */
  method FinalCheck(x: Int128, divisor: u64, ghost v: nat, ghost e: int) returns (r: Int128)
    requires divisor >= 2 && v == x.Value()
    requires divisor * v + e == B128 && 0 <= e <= divisor + 1 && e < B64
    ensures r.Value() == B128 / divisor
  {
    var product := Times64(x, divisor);
    var zero := FromParts(0, 0);
    var negated := Sub(zero, product);
    CheckIsResidual(divisor, v, e);
    GuessFitsBound(divisor, v);
    NextEstimate(divisor, v, e);
    r := CheckEstimate(x, negated, divisor, v, e);
  }

  method CheckEstimate(x: Int128, negated: Int128, divisor: u64, ghost v: nat, ghost e: int) returns (r: Int128)
    requires v == x.Value() && v + 1 < B128 && e == negated.Value() < B64
    ensures r.Value() == if e >= divisor then v + 1 else v
  {
    var check := negated.Part0();
    r := x;
    if check >= divisor {
      r := Add32(x, 1);
    }
  }

  lemma NextEstimate(d: nat, x: nat, e: int)
    requires d >= 2 && d * x + e == B128 && 0 <= e <= d + 1
    ensures B128 / d == if e >= d then x + 1 else x
  {
    if e >= d {
      assert d * (x + 1) + (e - d) == B128;
      DivModUnique(B128, d, x + 1, e - d);
    } else {
      DivModUnique(B128, d, x, e);
    }
  }

  lemma CheckIsResidual(d: nat, x: nat, e: nat)
    requires d * x + e == B128 && e < B64
    ensures (0 - x * d % B128) % B128 == e
  {
    if e == 0 {
      DivModUnique(x * d, B128, 1, 0);
    } else {
      DivModUnique(x * d, B128, 0, B128 - e);
      DivModUnique(0 - x * d, B128, -1, e);
    }
  }

  // ----- division

  /** The remainder left by the estimate floor(floor(2^128/d) * n / 2^128), before the correction. */
  function Uncorrected(n: nat, d: nat): int
    requires d > 0
  {
    n - d * ((B128 / d) * n / B128)
  }

  /** At most one correction is needed: the uncorrected remainder is below 2d and congruent to n. */
  lemma UncorrectedBounds(n: nat, d: nat)
    requires n < B128 && 2 <= d
    ensures Uncorrected(n, d) == n % d || Uncorrected(n, d) == n % d + d
    ensures 0 <= (B128 / d) * n / B128
    ensures Uncorrected(n, d) * B128 == n * (B128 % d) + d * (((B128 / d) * n) % B128)
  {
    var r, rho := B128 / d, B128 % d;
    DivModSpec(B128, d);
    DivNat(B128, d);
    assert r * n >= 0;
    DivModSpec(r * n, B128);
    var q, t := r * n / B128, r * n % B128;
    var s := n - d * q;
    UncorrectedResidual(n, d, r, rho, q, t);
    DivNat(r * n, B128);
    BelowTwice(n, d, rho, t, s);
    if s < d {
      DivModUnique(n, d, q, s);
    } else {
      assert n == d * (q + 1) + (s - d);
      DivModUnique(n, d, q + 1, s - d);
    }
  }

  lemma UncorrectedResidual(n: int, d: int, r: int, rho: int, q: int, t: int)
    requires d * r + rho == B128 && r * n == B128 * q + t
    ensures (n - d * q) * B128 == n * rho + d * t
  {
    assert (d * q) * B128 == d * (r * n) - d * t by {
      assert (d * q) * B128 == d * (B128 * q);
    }
    assert n * (d * r + rho) == d * (r * n) + n * rho;
  }

  lemma BelowTwice(n: nat, d: nat, rho: nat, t: nat, s: int)
    requires n < B128 && rho < d && t < B128 && s * B128 == n * rho + d * t
    ensures 0 <= s < 2 * d
  {
    MulMonotone(n, 0, rho);
    MulMonotone(n, rho, d);
    MulMonotone(d, n, B128 - 1);
    MulMonotone(d, 0, t);
    MulMonotone(d, t, B128 - 1);
  }

  /**
   * divide: right exactly when the uncorrected remainder still fits in 64 bits. When it does not, the
   * correction is missed: the quotient is one short, and the remainder is that of the correction, wrapped.
   */
  method Divide(n: Int128, divisor: u64) returns (quotient: Int128, modulo: u64)
    requires divisor >= 2
    ensures Uncorrected(n.Value(), divisor) < B64 ==> quotient.Value() == n.Value() / divisor && modulo == n.Value() % divisor
    ensures Uncorrected(n.Value(), divisor) >= B64 ==>
              quotient.Value() == n.Value() / divisor - 1 && modulo == n.Value() % divisor + divisor - B64
  {
    var recip := RecipNewton(divisor);
    quotient := Mult128Hi(recip, n);
    UncorrectedBounds(n.Value(), divisor);
    ghost var d, v, q, s := divisor as int, n.Value(), quotient.Value(), Uncorrected(n.Value(), divisor);
    MulMonotone(d, 0, q);
    assert v == d * q + s && q * d == d * q;
    QuotientStep(d, v, q, s);
    var product := Times64(quotient, divisor);
    DivModUnique(q * d, B128, 0, q * d);
    var rest := Sub(n, product);
    DivModUnique(s, B128, 0, s);
    DivModUnique(s, B64, rest.Part1(), rest.Part0());
    quotient, modulo := Correct(quotient, rest.Part0(), divisor, v / d, v % d, s);
  }

  /** The single correction, on the low 64 bits of the uncorrected remainder s. */
  method Correct(q: Int128, m: u64, divisor: u64, ghost vq: nat, ghost vr: nat, ghost s: nat)
    returns (quotient: Int128, modulo: u64)
    requires divisor >= 2 && m == s % B64 && s < 2 * divisor && q.Value() < B128 - 1
    requires vq == (if s < divisor then q.Value() else q.Value() + 1)
    requires vr == (if s < divisor then s else s - divisor)
    ensures s < B64 ==> quotient.Value() == vq && modulo == vr
    ensures s >= B64 ==> quotient.Value() == vq - 1 && modulo == vr + divisor - B64
  {
    quotient, modulo := q, m;
    WrappedRemainder(s, m);
    if modulo >= divisor {
      modulo := modulo - divisor;
      quotient := Add32(quotient, 1);
    }
  }

  lemma WrappedRemainder(s: nat, m: int)
    requires m == s % B64 && s < 2 * B64
    ensures m == if s < B64 then s else s - B64
  {
  }

  lemma QuotientStep(d: nat, v: nat, q: nat, s: nat)
    requires 2 <= d < B64 && v == d * q + s && v < B128
    requires s == v % d || s == v % d + d
    ensures q < B128 - 1
    ensures s < d ==> v / d == q && v % d == s
    ensures s >= d ==> v / d == q + 1 && v % d == s - d
  {
    MulMonotone(q, 2, d);
    if s < d {
      DivModUnique(v, d, q, s);
    } else {
      assert v == d * (q + 1) + (s - d);
      DivModUnique(v, d, q + 1, s - d);
    }
  }

  /** divMod: the two special divisors, then division by the reciprocal. */
  method DivMod(n: Int128, divisor: u64) returns (quotient: Int128, modulo: u64)
    ensures divisor == 0 ==> quotient.Value() == B128 - 1 && modulo == B64 - 1
    ensures divisor > 0 && Uncorrected(n.Value(), divisor) < B64 ==>
              quotient.Value() == n.Value() / divisor && modulo == n.Value() % divisor
    ensures divisor > 0 && Uncorrected(n.Value(), divisor) >= B64 ==>
              quotient.Value() == n.Value() / divisor - 1 && modulo == n.Value() % divisor + divisor - B64
  {
    if divisor == 0 {
      modulo := 0xffff_ffff_ffff_ffff;
      quotient := FromParts(0xffff_ffff_ffff_ffff, 0xffff_ffff_ffff_ffff);
      return;
    }
    if divisor == 1 {
      modulo := 0;
      quotient := FromParts(n.Part1(), n.Part0());
      DivModUnique(n.Value(), 1, n.Value(), 0);
      DivModUnique(B128, 1, B128, 0);
      DivModUnique(B128 * n.Value(), B128, n.Value(), 0);
      return;
    }
    quotient, modulo := Divide(n, divisor);
  }

  /**
   * For which divisors is division right for every dividend? Exactly when d + (2^128 mod d) <= 2^64, which
   * every d <= 2^63 satisfies; for any other divisor the dividend 2^128 - 1 already fails.
   */
  lemma DivisionExactness(d: nat)
    requires 2 <= d < B64
    ensures (forall n: nat :: n < B128 ==> Uncorrected(n, d) < B64) <==> d + B128 % d <= B64
    ensures d <= B63 ==> d + B128 % d <= B64
    ensures d + B128 % d > B64 ==> Uncorrected(B128 - 1, d) >= B64
  {
    DivModSpec(B128, d);
    var rho := B128 % d;
    if d + rho <= B64 {
      forall n: nat | n < B128
        ensures Uncorrected(n, d) < B64
      {
        UncorrectedBounds(n, d);
        var t, s := ((B128 / d) * n) % B128, Uncorrected(n, d);
        MulMonotone(rho, n, B128 - 1);
        MulMonotone(d, t, B128 - 1);
        assert n * rho == rho * n;
        if s >= d + rho {
          MulMonotone(B128, d + rho, s);
        }
      }
    } else {
      LargestDividend(d);
    }
  }

  lemma LargestDividend(d: nat)
    requires 2 <= d < B64
    ensures Uncorrected(B128 - 1, d) == d + B128 % d - 1
  {
    var r := B128 / d;
    DivModSpec(B128, d);
    GuessFitsBound(d, r);
    if r <= 0 {
      MulMonotone(d, r, 0);
    }
    assert r * (B128 - 1) == B128 * (r - 1) + (B128 - r);
    DivModUnique(r * (B128 - 1), B128, r - 1, B128 - r);
    assert d * (r - 1) == d * r - d;
  }
}
