/** Powers of two, bitwise operators on naturals, and facts about / and % with a variable divisor. */
module Bits {

  function Pow2(n: nat): (r: nat)
    ensures r > 0
  {
    if n == 0 then 1 else 2 * Pow2(n - 1)
  }

  /** Bitwise "and" of two naturals, least significant bit first. */
  function BitAnd(x: nat, y: nat): nat
    decreases x
  {
    if x == 0 || y == 0 then 0
    else (if x % 2 == 1 && y % 2 == 1 then 1 else 0) + 2 * BitAnd(x / 2, y / 2)
  }

  /** Bitwise "or" of two naturals, least significant bit first. */
  function BitOr(x: nat, y: nat): nat
    decreases x + y
  {
    if x == 0 then y
    else if y == 0 then x
    else (if x % 2 == 1 || y % 2 == 1 then 1 else 0) + 2 * BitOr(x / 2, y / 2)
  }

  // ----- division and remainder

  /** A multiple of m strictly between -m and m is 0. */
  lemma SmallMultiple(m: int, k: int)
    requires m > 0 && -m < m * k < m
    ensures k == 0
  {
    if k >= 1 {
      MulMonotone(m, 1, k);
    } else if k <= -1 {
      MulMonotone(m, k, -1);
    }
  }

  lemma MulMonotone(m: int, a: int, b: int)
    requires m >= 0 && a <= b
    ensures m * a <= m * b
  {
    assert m * (b - a) >= 0;
  }

  lemma DivModUnique(a: int, m: int, q: int, r: int)
    requires 0 <= r < m && a == m * q + r
    ensures a / m == q && a % m == r
  {
    var q1, r1 := a / m, a % m;
    assert m * (q1 - q) == r - r1 by {
      assert a == m * q1 + r1;
      assert m * (q1 - q) == m * q1 - m * q;
    }
    SmallMultiple(m, q1 - q);
  }

  lemma DivModSpec(a: int, m: int)
    requires m > 0
    ensures a == m * (a / m) + a % m && 0 <= a % m < m
  {
  }

  /** Adding a multiple of the modulus does not change the remainder. */
  lemma ModShift(a: int, m: int, k: int)
    requires m > 0
    ensures (a + m * k) % m == a % m
    ensures (a + m * k) / m == a / m + k
  {
    DivModSpec(a, m);
    assert a + m * k == m * (a / m + k) + a % m;
    DivModUnique(a + m * k, m, a / m + k, a % m);
  }

  lemma ModMulRight(a: int, b: int, m: int)
    requires m > 0
    ensures (a * (b % m)) % m == (a * b) % m
  {
    DivModSpec(b, m);
    assert a * b == a * (b % m) + m * (a * (b / m));
    ModShift(a * (b % m), m, a * (b / m));
  }

  /** Congruent factors have congruent products. */
  lemma ModMulCong(a: int, b: int, c: int, m: int)
    requires m > 0 && b % m == c % m
    ensures (a * b) % m == (a * c) % m
  {
    ModMulRight(a, b, m);
    ModMulRight(a, c, m);
  }

  lemma DivMonotone(a: int, b: int, m: int)
    requires m > 0 && a <= b
    ensures a / m <= b / m
  {
    DivModSpec(a, m);
    DivModSpec(b, m);
    var qa, qb := a / m, b / m;
    assert m * (qb + 1) == m * qb + m;
    if qa >= qb + 1 {
      MulMonotone(m, qb + 1, qa);
    }
  }

  lemma DivBelow(a: int, m: int, k: int)
    requires m > 0 && a < m * k
    ensures a / m < k
  {
    DivModSpec(a, m);
    var q := a / m;
    if q >= k {
      MulMonotone(m, k, q);
    }
  }

  // ----- powers of two

  lemma Pow2Add(a: nat, b: nat)
    ensures Pow2(a + b) == Pow2(a) * Pow2(b)
  {
    if a != 0 {
      Pow2Add(a - 1, b);
    }
  }

  lemma Pow2Monotone(a: nat, b: nat)
    requires a <= b
    ensures Pow2(a) <= Pow2(b)
    ensures a < b ==> Pow2(a) < Pow2(b)
  {
    if a < b {
      Pow2Monotone(a, b - 1);
    }
  }

  /** Reducing modulo a higher power of two first does not change a lower residue. */
  lemma ModPow2Mod(x: int, s: nat, t: nat)
    requires s <= t
    ensures (x % Pow2(t)) % Pow2(s) == x % Pow2(s)
  {
    Pow2Add(s, t - s);
    ModMod(x, Pow2(s), Pow2(t - s));
  }

  lemma ModMod(x: int, m: nat, n: nat)
    requires m > 0 && n > 0
    ensures m * n > 0 && (x % (m * n)) % m == x % m
  {
    MulMonotone(m, 1, n);
    DivModSpec(x, m * n);
    var q, r := x / (m * n), x % (m * n);
    assert m * n * q == m * (n * q);
    ModShift(r, m, n * q);
  }

  lemma OddTimes(m: int, k: int, d: int)
    requires m % 2 == 1 && m * k == 2 * d
    ensures m * (k / 2) == d
  {
    var b := k / 2;
    assert m * (2 * b + 1) == 2 * (m * b) + m;
    assert m * (2 * b) == 2 * (m * b);
    assert k == 2 * b || k == 2 * b + 1;
  }

  /** Cancelling a power of two modulo an odd number. */
  lemma {:induction false} CancelPow2(c: int, s: nat, m: int)
    requires m > 0 && m % 2 == 1
    requires (c * Pow2(s)) % m == 0
    ensures c % m == 0
    decreases s
  {
    if s > 0 {
      var d := c * Pow2(s - 1);
      assert c * Pow2(s) == 2 * d;
      var k := (2 * d) / m;
      DivModSpec(2 * d, m);
      assert 2 * d == m * k;
      OddTimes(m, k, d);
      DivModUnique(d, m, k / 2, 0);
      CancelPow2(c, s - 1, m);
    } else {
      assert c * Pow2(0) == c;
    }
  }

  // ----- bitwise operators as arithmetic

  /** Masking with 2^s - 1 is the remainder modulo 2^s. */
  lemma {:induction false} AndMask(x: nat, s: nat, p: int)
    requires p == Pow2(s)
    ensures BitAnd(x, p - 1) == x % p
    decreases s
  {
    if s == 0 {
      DivModUnique(x, 1, x, 0);
    } else if x > 0 {
      var h := Pow2(s - 1);
      AndMask(x / 2, s - 1, h);
      HalfMod(x, h, p);
      AndOdd(x, h - 1, p - 1);
    } else {
      DivModUnique(0, p, 0, 0);
    }
  }

  lemma AndOdd(x: nat, y: nat, z: nat)
    requires x > 0 && z == 2 * y + 1
    ensures BitAnd(x, z) == x % 2 + 2 * BitAnd(x / 2, y)
  {
  }

  lemma HalfMod(x: nat, m: nat, m2: nat)
    requires m > 0 && m2 == 2 * m
    ensures x % m2 == x % 2 + 2 * ((x / 2) % m)
    ensures x / m2 == (x / 2) / m
  {
    DivModSpec(x / 2, m);
    var q, t := (x / 2) / m, (x / 2) % m;
    assert m2 * q == 2 * (m * q);
    DivModUnique(x, m2, q, x % 2 + 2 * t);
  }

  /** Masking with a single bit 2^k tests the k-th binary digit. */
  lemma {:induction false} AndBit(x: nat, k: nat)
    ensures BitAnd(x, Pow2(k)) == (x / Pow2(k)) % 2 * Pow2(k)
    decreases k
  {
    if x > 0 && k > 0 {
      AndBit(x / 2, k - 1);
      HalfMod(x, Pow2(k - 1), Pow2(k));
      assert BitAnd(x, Pow2(k)) == 2 * BitAnd(x / 2, Pow2(k - 1));
    } else if x > 0 {
      assert BitAnd(x, 1) == x % 2 + 2 * BitAnd(x / 2, 0);
    }
  }

  /** "Or" of numbers with disjoint bits is their sum. */
  lemma {:induction false} OrDisjoint(a: nat, b: nat, s: nat)
    requires b < Pow2(s)
    ensures BitOr(a * Pow2(s), b) == a * Pow2(s) + b
    decreases s
  {
    var x := a * Pow2(s);
    if s > 0 && x > 0 && b > 0 {
      assert x == 2 * (a * Pow2(s - 1));
      assert x % 2 == 0 && x / 2 == a * Pow2(s - 1);
      OrDisjoint(a, b / 2, s - 1);
    }
  }
}
