/** Class CudaPi: 2-adic inverse, Montgomery multiplication, 2^p mod m, and 64-bit fractions. */
module ModPow {
  import opened Bits
  import opened Words
  import opened Wide
  import opened Newton

  const B62: int := 0x4000_0000_0000_0000

  // ----- -m^-1 modulo a power of two

  /** The low j bits of x agree with -m^-1. */
  ghost predicate CorrectBits(m: int, x: int, j: nat) {
    (1 + m * x) % Pow2(j) == 0
  }

  lemma {:induction false} OddFactor(x: int, e: int, j: nat)
    requires x % 2 == 1 && (x * e) % Pow2(j) == 0
    ensures e % Pow2(j) == 0
    decreases j
  {
    if j > 0 {
      var h := Pow2(j - 1);
      var k := x * e / Pow2(j);
      DivModSpec(x * e, Pow2(j));
      assert x * e == 2 * (h * k);
      OddTimes(x, e, h * k);
      var d := e / 2;
      assert x * (2 * d) == 2 * (x * d);
      EvenFactor(x, e);
      DivModUnique(x * d, h, k, 0);
      OddFactor(x, d, j - 1);
      DivModSpec(d, h);
      assert e == 2 * (h * (d / h));
      DivModUnique(e, Pow2(j), d / h, 0);
    }
  }

  lemma EvenFactor(x: int, e: int)
    requires x % 2 == 1 && (x * e) % 2 == 0
    ensures e % 2 == 0
  {
    var a, b := x / 2, e / 2;
    assert x * (2 * b + 1) == 2 * (x * b + a) + 1;
    assert e == 2 * b || e == 2 * b + 1;
  }

  lemma FewerBits(e: int, i: nat, j: nat)
    requires i <= j && e % Pow2(j) == 0
    ensures e % Pow2(i) == 0
  {
    ModPow2Mod(e, i, j);
    DivModUnique(0, Pow2(i), 0, 0);
  }

  /** Every odd square is 1 modulo 8, so 8 - (m & 7) starts with three correct bits. */
  lemma FirstBits(m: nat, x: int)
    requires m % 2 == 1 && x == 8 - m % 8
    ensures CorrectBits(m, x, 3)
  {
    assert Pow2(3) == 8;
    var a, r := m / 8, m % 8;
    assert 1 + m * x == 8 * (a * x) + 1 + r * x;
    assert r == 1 || r == 3 || r == 5 || r == 7;
    assert (1 + r * x) % 8 == 0;
    ModShift(1 + r * x, 8, a * x);
  }

  /** One pass squares the error 1 + m*x, so it doubles the number of correct bits, up to the width s. */
  lemma ErrorSquares(m: int, x: int, x1: int, j: nat, s: nat)
    requires CorrectBits(m, x, j)
    requires x1 == (x * (2 + m * x)) % Pow2(s)
    ensures CorrectBits(m, x1, if 2 * j <= s then 2 * j else s)
  {
    var i := if 2 * j <= s then 2 * j else s;
    var e, r := 1 + m * x, Pow2(s);
    SquareBits(e, j, i);
    Pow2Add(i, s - i);
    var q := x * (2 + m * x) / r;
    DivModSpec(x * (2 + m * x), r);
    NewError(m, x, x1, r, q, Pow2(i), Pow2(s - i));
  }

  lemma SquareBits(e: int, j: nat, i: nat)
    requires e % Pow2(j) == 0 && i <= 2 * j
    ensures (e * e) % Pow2(i) == 0
  {
    var h := Pow2(j);
    DivModSpec(e, h);
    var c := e / h;
    SquareMultiple(e, h, c);
    Pow2Add(j, j);
    DivModUnique(e * e, Pow2(2 * j), c * c, 0);
    FewerBits(e * e, i, 2 * j);
  }

  lemma SquareMultiple(e: int, h: int, c: int)
    requires e == h * c
    ensures e * e == (h * h) * (c * c)
  {
  }

  lemma NewError(m: int, x: int, x1: int, r: int, q: int, p: int, g: int)
    requires p > 0 && r == p * g && x * (2 + m * x) == r * q + x1
    requires ((1 + m * x) * (1 + m * x)) % p == 0
    ensures (1 + m * x1) % p == 0
  {
    var full, k := x * (2 + m * x), g * (m * q);
    ErrorOfFull(m, x);
    PartOfFull(m, q, p, g, r, full, x1);
    ModPart(1 + m * full, 1 + m * x1, p, k);
  }

  lemma ModPart(a: int, b: int, p: int, k: int)
    requires p > 0 && a % p == 0 && a == p * k + b
    ensures b % p == 0
  {
    ModShift(b, p, k);
  }

  lemma ErrorOfFull(m: int, x: int)
    ensures 1 + m * (x * (2 + m * x)) == (1 + m * x) * (1 + m * x)
  {
    assert m * (x * (2 + m * x)) == (m * x) * (2 + m * x);
  }

  lemma PartOfFull(m: int, q: int, p: int, g: int, r: int, full: int, x1: int)
    requires r == p * g && full == r * q + x1
    ensures m * full == p * (g * (m * q)) + m * x1
  {
    assert m * full == m * (r * q) + m * x1;
    assert m * ((p * g) * q) == p * (g * (m * q));
  }

  /** A pass changes x by a multiple of x * (1 + m*x): it fixes exactly the correct residues. */
  lemma FixedPoint(m: int, x: int, x1: int, s: nat)
    requires m % 2 == 1 && x % 2 == 1 && 0 <= x < Pow2(s)
    requires x1 == (x * (2 + m * x)) % Pow2(s)
    ensures x1 == x <==> CorrectBits(m, x, s)
  {
    var e, r := 1 + m * x, Pow2(s);
    PassAdds(m, x);
    if x1 == x {
      FixedMeansMultiple(x, x * e, r);
      OddFactor(x, e, s);
    }
    if e % r == 0 {
      MultipleFixes(x, e, r);
    }
  }

  lemma PassAdds(m: int, x: int)
    ensures x * (2 + m * x) == x + x * (1 + m * x)
  {}

  lemma FixedMeansMultiple(x: int, y: int, r: int)
    requires r > 0 && (x + y) % r == x
    ensures y % r == 0
  {
    DivModSpec(x + y, r);
    DivModUnique(y, r, (x + y) / r, 0);
  }

  lemma MultipleFixes(x: int, e: int, r: int)
    requires 0 <= x < r && e % r == 0
    ensures (x + x * e) % r == x
  {
    DivModSpec(e, r);
    var k := e / r;
    assert x * (r * k) == r * (x * k);
    DivModUnique(x + x * e, r, x * k, x);
  }

  lemma OddInverse(m: int, x: int, j: nat)
    requires m % 2 == 1 && j >= 1 && CorrectBits(m, x, j)
    ensures x % 2 == 1
  {
    FewerBits(1 + m * x, 1, j);
    assert Pow2(1) == 2;
    var b := x / 2;
    assert m * (2 * b) == 2 * (m * b);
    assert x == 2 * b || x == 2 * b + 1;
  }

  /** The wrapped 64-bit expression x * (2 + m * x), masked, is the integer one modulo R. */
  lemma WrappedPass(m: u64, x: u64, s: nat, r: int)
    requires s <= 64 && r == Pow2(s)
    ensures BitAnd(Wrap64(x * Wrap64(2 + Wrap64(m * x))), r - 1) == (x * (2 + m * x)) % r
  {
    var t := 2 + m * x;
    MulMonotone(m, 0, x);
    WrapProduct(x, m * x);
    AndMask(Wrap64(x * t), s, r);
    PowersOfWords();
    ModPow2Mod(x * t, s, 64);
  }

  lemma WrapProduct(x: int, t: int)
    ensures Wrap64(x * Wrap64(2 + Wrap64(t))) == Wrap64(x * (2 + t))
  {
    assert Wrap64(2 + Wrap64(t)) == Wrap64(2 + t);
    ModMulRight(x, 2 + t, B64);
  }

  ghost function BitsAfter(passes: nat, s: nat): (j: nat)
    ensures j <= s
    ensures s >= 1 ==> j >= 1
  {
    if passes == 0 then (if s < 3 then s else 3)
    else var j := BitsAfter(passes - 1, s); if 2 * j <= s then 2 * j else s
  }

  lemma FivePasses(s: nat)
    requires 1 <= s <= 63
    ensures BitsAfter(5, s) == s
  {
    assert BitsAfter(0, s) == if s < 3 then s else 3;
    assert BitsAfter(1, s) == if s < 6 then s else 6;
    assert BitsAfter(2, s) == if s < 12 then s else 12;
    assert BitsAfter(3, s) == if s < 24 then s else 24;
    assert BitsAfter(4, s) == if s < 48 then s else 48;
  }

  /** inverse: -m^-1 modulo R = 2^s, found within six passes whatever odd m. */
  method Inverse(m: u64, R: u64, ghost s: nat) returns (x: u64, ghost passes: nat)
    requires m % 2 == 1 && 1 <= s <= 63 && R == Pow2(s)
    ensures x < R && (1 + m * x) % R == 0
    ensures passes <= 6
  {
    var mask := R - 1;
    assert BitAnd(m, 7) == m % 8 by {
      assert Pow2(3) == 8;
      AndMask(m, 3, 8);
    }
    x := 8 - BitAnd(m, 7);
    passes := 0;
    FirstBits(m, x);
    FewerBits(1 + m * x, BitsAfter(0, s), 3);
    while true
      invariant passes <= 5 && (passes > 0 ==> x < R)
      invariant CorrectBits(m, x, BitsAfter(passes, s))
      decreases 6 - passes
    {
      var x1 := BitAnd(Wrap64(x * Wrap64(2 + Wrap64(m * x))), mask);
      WrappedPass(m, x, s, R);
      OddInverse(m, x, BitsAfter(passes, s));
      DivModSpec(x * (2 + m * x), R);
      ErrorSquares(m, x, x1, BitsAfter(passes, s), s);
      if passes == 5 {
        FivePasses(s);
      }
      if x < R {
        FixedPoint(m, x, x1, s);
      }
      passes := passes + 1;
      if x1 == x {
        return;
      }
      x := x1;
    }
  }

  /** Two values congruent modulo r and both in 0 .. r - 1 are equal. */
  lemma CloseMultiple(r: int, x: int, y: int)
    requires 0 <= x < r && 0 <= y < r && (x - y) % r == 0
    ensures x == y
  {
    DivModSpec(x - y, r);
    SmallMultiple(r, (x - y) / r);
  }

  lemma ErrorsDiffer(m: int, x: int, y: int, r: int)
    requires r > 0 && (1 + m * x) % r == 0 && (1 + m * y) % r == 0
    ensures (m * (x - y)) % r == 0
  {
    DivModSpec(1 + m * x, r);
    DivModSpec(1 + m * y, r);
    var a, b := (1 + m * x) / r, (1 + m * y) / r;
    Distribute(m, x, y);
    Distribute(r, a, b);
    DivModUnique(m * (x - y), r, a - b, 0);
  }

  /** There is only one residue below 2^s with that property. */
  lemma InverseUnique(m: int, x: int, y: int, s: nat)
    requires m % 2 == 1 && 0 <= x < Pow2(s) && 0 <= y < Pow2(s)
    requires CorrectBits(m, x, s) && CorrectBits(m, y, s)
    ensures x == y
  {
    ErrorsDiffer(m, x, y, Pow2(s));
    OddFactor(m, x - y, s);
    CloseMultiple(Pow2(s), x, y);
  }

  // ----- Montgomery multiplication

  /** The constants of a Montgomery form: m odd, R = 2^s above m, mask = R - 1, minv = -m^-1 mod R. */
  ghost predicate MontParams(m: int, minv: int, mask: int, s: nat) {
    0 < m && m % 2 == 1 && 1 <= s <= 63 && m < Pow2(s) && mask == Pow2(s) - 1
    && 0 <= minv < Pow2(s) && (1 + m * minv) % Pow2(s) == 0
  }

  /** With xnp = minv * x mod R, the sum xnp * m + x is divisible by R; its quotient is below 2m and is x / R modulo m. */
  lemma Reduction(m: int, minv: int, s: nat, r: int, x: int, xnp: int)
    requires r == Pow2(s) && 0 < m < r && (1 + m * minv) % r == 0
    requires 0 <= x < m * r && xnp == (minv * x) % r
    ensures 0 <= xnp * m + x < 2 * (m * r)
    ensures ghost var t := (xnp * m + x) / r;
            0 <= t < 2 * m && t * r == x + m * xnp
  {
    DivModSpec(minv * x, r);
    DivModSpec(1 + m * minv, r);
    var q, k := minv * x / r, (1 + m * minv) / r;
    var t := k * x - m * q;
    ReductionQuotient(m, minv, r, x, xnp, q, k);
    ReductionBounds(m, r, x, xnp, t);
    DivModUnique(xnp * m + x, r, t, 0);
  }

  lemma ReductionQuotient(m: int, minv: int, r: int, x: int, xnp: int, q: int, k: int)
    requires minv * x == r * q + xnp && 1 + m * minv == r * k
    ensures xnp * m + x == r * (k * x - m * q)
  {
    MulShuffle(m, minv, x);
    assert m * (r * q + xnp) == m * (r * q) + m * xnp;
    Distribute(x, r * k, 1);
    MulShuffle(r, k, x);
    MulShuffle(m, r, q);
    assert (r * k - 1) * x == x * (r * k - 1) && x * (r * k) == (r * k) * x;
    assert m * (r * q) == r * (m * q);
    Distribute(r, k * x, m * q);
    assert xnp * m == m * xnp;
  }

  lemma ReductionBounds(m: int, r: int, x: int, xnp: int, t: int)
    requires 0 < m < r && 0 <= x < m * r && 0 <= xnp < r
    requires xnp * m + x == r * t
    ensures 0 <= xnp * m + x < 2 * (m * r)
    ensures 0 <= t < 2 * m && t * r == x + m * xnp
  {
    MulMonotone(m, xnp, r - 1);
    MulMonotone(m, 0, xnp);
    Distribute(m, r, 1);
    assert xnp * m == m * xnp && t * r == r * t;
    if t < 0 {
      MulMonotone(r, t, -1);
    }
    if t >= 2 * m {
      MulMonotone(r, 2 * m, t);
    }
  }

  lemma Distribute(r: int, a: int, b: int)
    ensures r * (a - b) == r * a - r * b
  {
  }

  lemma ProductRange(m: int, r: int)
    requires 0 < m < r <= Pow2(63)
    ensures 2 * (m * r) < B128 && 2 * m < B64
  {
    PowersOfWords();
    Pow2Add(63, 1);
    MulMonotone(r, m, r);
    MulMonotone(r, r, B63);
  }

  /** montgomeryMult: factor1 * factor2 / R modulo m, in reduced form. */
  method MontgomeryMult(factor1: u64, factor2: u64, m: u64, minv: u64, mask: u64, s: nat) returns (result: u64)
    requires MontParams(m, minv, mask, s) && factor1 * factor2 < m * Pow2(s)
    ensures result < m
    ensures (result * Pow2(s)) % m == (factor1 * factor2) % m
  {
    ghost var r, v := Pow2(s), factor1 * factor2;
    MulMonotone(factor1, 0, factor2);
    var x := Mult64(factor1, factor2);
    var xnp := MaskedProduct(x, minv, mask, s, v, r);
    SumFits(m, minv, s, r, v, xnp);
    result := ReduceSum(x, xnp, m, s, v, r);
    ReducedCong((xnp * m + v) / r, m, r, v, xnp, result);
  }

  /** (minv * (low word of x)) & mask. */
  method MaskedProduct(x: Int128, minv: u64, mask: u64, s: nat, ghost v: int, ghost r: int) returns (xnp: u64)
    requires v == x.Value() && s <= 63 && r == Pow2(s) && mask == r - 1
    ensures xnp == (minv * v) % r
  {
    LowPartMasked(minv, v, x.Part1(), x.Part0(), s, r);
    DivModSpec(minv * v, r);
    PowersOfWords();
    Pow2Monotone(s, 64);
    xnp := BitAnd(Wrap64(minv * x.Part0()), mask);
  }

  lemma SumFits(m: int, minv: int, s: nat, r: int, v: int, xnp: int)
    requires s <= 63 && r == Pow2(s) && 0 < m < r && (1 + m * minv) % r == 0
    requires 0 <= v < m * r && xnp == (minv * v) % r
    ensures 0 <= xnp * m && 0 <= xnp * m + v < B128 && 2 * m < B64
    ensures 0 <= (xnp * m + v) / r < 2 * m && ((xnp * m + v) / r) * r == v + m * xnp
  {
    Pow2Monotone(s, 63);
    DivModSpec(minv * v, r);
    Reduction(m, minv, s, r, v, xnp);
    ProductRange(m, r);
    MulMonotone(m, 0, xnp);
    assert xnp * m == m * xnp;
  }

  lemma ReducedCong(t: int, m: int, r: int, v: int, xnp: int, result: int)
    requires m > 0 && t * r == v + m * xnp && (result == t || result == t - m)
    ensures (result * r) % m == v % m
  {
    ModShift(v, m, xnp);
    Distribute(r, t, m);
    Distribute(m, xnp, r);
    assert (t - m) * r == r * (t - m) && t * r == r * t && m * r == r * m;
    ModShift(v, m, xnp - r);
  }

  /** Masking minv times the low word of x gives minv * x modulo R. */
  lemma LowPartMasked(minv: u64, v: int, hi: u64, lo: u64, s: nat, r: int)
    requires v == hi * B64 + lo && s <= 64 && r == Pow2(s)
    ensures BitAnd(Wrap64(minv * lo), r - 1) == (minv * v) % r
  {
    AndMask(Wrap64(minv * lo), s, r);
    PowersOfWords();
    ModPow2Mod(minv * lo, s, 64);
    Pow2Add(s, 64 - s);
    var g := Pow2(64 - s);
    ghost var t := minv * hi;
    assert minv * v == minv * lo + B64 * t by {
      Distribute(minv, v, lo);
      MulShuffle(minv, hi, B64);
    }
    MulShuffle(r, g, t);
    ModShift(minv * lo, r, g * t);
  }

  /** ((xnp * m) + x) >> s, reduced below m. */
  method ReduceSum(x: Int128, xnp: u64, m: u64, s: nat, ghost v: int, ghost r: int) returns (result: u64)
    requires 1 <= s <= 63 && r == Pow2(s) && v == x.Value()
    requires 0 <= xnp * m && xnp * m + v < B128
    requires 0 <= (xnp * m + v) / r < 2 * m && 2 * m < B64
    ensures result < m
    ensures ghost var t := (xnp * m + v) / r; result == if t >= m then t - m else t
  {
    var tmp := TimesWord(xnp, m);
    tmp := Add(tmp, x);
    result := ShiftAndReduce(tmp, m, s, xnp * m + v, r);
  }

  method TimesWord(a: u64, m: u64) returns (r: Int128)
    ensures r.Value() == a * m
  {
    ProductBound(a, m, B64);
    DivModUnique(a * m, B128, 0, a * m);
    var wide := FromParts(0, a);
    r := Times64(wide, m);
  }

  method ShiftAndReduce(x: Int128, m: u64, s: nat, ghost v: int, ghost r: int) returns (result: u64)
    requires 1 <= s <= 63 && r == Pow2(s) && v == x.Value()
    requires 0 <= v / r < 2 * m && 2 * m < B64
    ensures result < m
    ensures result == if v / r >= m then v / r - m else v / r
  {
    var tmp := ShiftRight(x, s);
    result := tmp.Part0();
    if result >= m {
      result := result - m;
    }
  }

  // ----- 2^p mod m in Montgomery form

  /** t stands for a: t is a * R modulo m. */
  ghost predicate Represents(t: int, a: int, s: nat, m: int)
    requires m > 0
  {
    t % m == (a * Pow2(s)) % m
  }

  /** A Montgomery product represents the product of what its factors represent. */
  lemma ProductRepresents(t: int, t1: int, t2: int, a1: int, a2: int, s: nat, m: int)
    requires m > 0 && m % 2 == 1
    requires (t * Pow2(s)) % m == (t1 * t2) % m
    requires Represents(t1, a1, s, m) && Represents(t2, a2, s, m)
    ensures Represents(t, a1 * a2, s, m)
  {
    var r := Pow2(s);
    ModMulCong(t1, t2, a2 * r, m);
    ModMulCong(a2 * r, t1, a1 * r, m);
    assert t1 * (a2 * r) == (a2 * r) * t1;
    assert (a2 * r) * (a1 * r) == (a1 * a2 * r) * r;
    CancelCong(t, a1 * a2 * r, s, m);
  }

  lemma CancelCong(a: int, b: int, s: nat, m: int)
    requires m > 0 && m % 2 == 1
    requires (a * Pow2(s)) % m == (b * Pow2(s)) % m
    ensures a % m == b % m
  {
    var r := Pow2(s);
    DivModSpec(a * r, m);
    DivModSpec(b * r, m);
    var x, y := a * r / m, b * r / m;
    Distribute(r, a, b);
    Distribute(m, x, y);
    assert (a - b) * r == r * (a - b) && a * r == r * a && b * r == r * b;
    DivModUnique((a - b) * r, m, x - y, 0);
    CancelPow2(a - b, s, m);
    DivModSpec(a - b, m);
    ModShift(b, m, (a - b) / m);
  }

  /** p without its k low bits, and how the next bit extends it. */
  function Prefix(p: nat, k: nat): nat {
    DivNat(p, Pow2(k));
    p / Pow2(k)
  }

  lemma NextBit(p: nat, k: nat)
    ensures Prefix(p, k) == 2 * Prefix(p, k + 1) + Prefix(p, k) % 2
    ensures BitAnd(p, Pow2(k)) != 0 <==> Prefix(p, k) % 2 == 1
  {
    AndBit(p, k);
    var q, h := Prefix(p, k), Pow2(k);
    DivDiv(p, h, 2);
    assert h * 2 == Pow2(k + 1);
    BitTimes(q % 2, h);
  }

  lemma BitTimes(d: int, h: int)
    requires 0 <= d <= 1 && h > 0
    ensures d * h != 0 <==> d == 1
  {
  }

  lemma PowStep(a: nat, d: nat)
    requires d <= 1
    ensures Pow2(2 * a + d) == (if d == 1 then Pow2(a) * Pow2(a) * 2 else Pow2(a) * Pow2(a))
  {
    Pow2Add(a, a);
  }

  /** The mask bit of the loop: 2^k, or 0 once all bits are done (k == -1). */
  ghost predicate MaskBit(bit: int, k: int) {
    k >= -1 && bit == if k == -1 then 0 else Pow2(k)
  }

  /** Before the highest bit of p nothing is left of it, at it one bit. */
  lemma TopPrefix(p: nat, k0: nat)
    requires Pow2(k0) <= p < Pow2(k0 + 1)
    ensures Prefix(p, k0 + 1) == 0 && Prefix(p, k0) == 1 && Pow2(0) == 1
  {
    DivModUnique(p, Pow2(k0 + 1), 0, p);
    DivModUnique(p, Pow2(k0), 1, p - Pow2(k0));
  }

  lemma NextMask(k: nat)
    ensures MaskBit(Shr64(1, 1), -1)
    ensures k >= 1 ==> Pow2(k) / 2 == Pow2(k - 1)
    ensures Pow2(1) == 2
  {
  }

  /** One bit of the exponent: square, and multiply by the form of 2 when the bit is set. */
  method MontgomeryBit(total: u64, factor: u64, one: bool, m: u64, minv: u64, mask: u64, s: nat, ghost a: nat)
    returns (r: u64)
    requires MontParams(m, minv, mask, s) && total < m && factor < m
    ensures r < m
    ensures Represents(total, Pow2(a), s, m) && Represents(factor, 2, s, m)
            ==> Represents(r, Pow2(2 * a + if one then 1 else 0), s, m)
    ensures factor == 0 && (one || total == 0) ==> r == 0
  {
    PowStep(a, if one then 1 else 0);
    BelowMR(total, total, m, Pow2(s));
    r := MontgomeryMult(total, total, m, minv, mask, s);
    if Represents(total, Pow2(a), s, m) {
      ProductRepresents(r, total, total, Pow2(a), Pow2(a), s, m);
    }
    if total == 0 {
      ZeroProduct(r, s, m);
    }
    if one {
      ghost var sq := r;
      BelowMR(r, factor, m, Pow2(s));
      r := MontgomeryMult(r, factor, m, minv, mask, s);
      if Represents(total, Pow2(a), s, m) && Represents(factor, 2, s, m) {
        ProductRepresents(r, sq, factor, Pow2(a) * Pow2(a), 2, s, m);
      }
      if factor == 0 {
        assert sq * factor == 0;
        ZeroProduct(r, s, m);
      }
    }
  }

  lemma BelowMR(a: int, b: int, m: int, r: int)
    requires 0 <= a < m && 0 <= b < m < r
    ensures a * b < m * r
  {
    MulMonotone(a, b, r);
    MulMonotone(r, a, m - 1);
  }

  lemma ZeroProduct(t: int, s: nat, m: int)
    requires m > 0 && m % 2 == 1 && 0 <= t < m
    requires (t * Pow2(s)) % m == 0 % m
    ensures t == 0
  {
    DivModUnique(0, m, 0, 0);
    CancelPow2(t, s, m);
    DivModUnique(t, m, 0, t);
  }

  lemma OddPowerNonzero(p: nat, m: int)
    requires m > 1 && m % 2 == 1
    ensures Pow2(p) % m != 0
  {
    if (1 * Pow2(p)) % m == 0 {
      CancelPow2(1, p, m);
      DivModUnique(1, m, 0, 1);
    }
  }

  /** R = 2^s is the least power of two above m. */
  method MontgomerySetup(m: u64) returns (s: nat, R: u64, minv: u64)
    requires m % 2 == 1 && m < B63
    ensures MontParams(m, minv, R - 1, s) && R == Pow2(s) && R <= 2 * m
    ensures s <= 62 <==> m < B62
    ensures m < R && 1 <= s <= 63
  {
    var z := CountLeadingZeros64(m);
    s := 64 - z;
    WordSize(m, s);
    R := Shl64(1, s);
    ghost var passes;
    minv, passes := Inverse(m, R, s);
  }

  lemma WordSize(m: int, s: nat)
    requires 0 < m < B63 && m % 2 == 1 && s <= 64
    requires Pow2(if s == 0 then 0 else s - 1) <= m < Pow2(s)
    ensures 1 <= s <= 63 && Pow2(s) <= 2 * m && (s <= 62 <==> m < B62)
    ensures Shl64(1, s) == Pow2(s)
  {
    PowersOfWords();
    Pow2Add(63, 1);
    Pow2Add(62, 1);
    if s == 64 {
      assert false;
    }
    if s <= 62 {
      Pow2Monotone(s, 62);
    }
    Pow2Monotone(s, 63);
    assert 1 * Pow2(s) == Pow2(s);
  }

  /** The Montgomery form of 2: exact while 2R fits in 64 bits, and 0 as soon as it does not. */
  lemma FactorForm(m: int, s: nat)
    requires 0 < m && 1 <= s <= 63
    ensures s <= 62 ==> Represents(Shl64(2, s) % m, 2, s, m)
    ensures s == 63 ==> Shl64(2, s) % m == 0
  {
    PowersOfWords();
    Pow2Add(s, 1);
    if s <= 62 {
      Pow2Monotone(s + 1, 63);
      Pow2Monotone(63, 64);
      DivModUnique(2 * Pow2(s), B64, 0, 2 * Pow2(s));
      ModMulRight(1, 2 * Pow2(s), m);
    } else {
      DivModUnique(2 * Pow2(s), B64, 1, 0);
      DivModUnique(0, m, 0, 0);
    }
  }

  lemma OneForm(m: int, s: nat, R: int)
    requires m > 0 && R == Pow2(s)
    ensures Represents(R % m, 1, s, m)
  {
    ModMulRight(1, R, m);
  }

  /** (2^p) % m for odd m; the second case is what the overflow of (u64)2 << s costs. */
  method MontgomeryModPow2(p: u64, m: u64) returns (total: u64)
    requires p > 0 && m % 2 == 1 && m < B63
    ensures m < B62 ==> total == Pow2(p) % m
    ensures m > B62 ==> total == 0
  {
    hide MontParams, Represents, Prefix, Pow2, BitAnd, Shl64;
    var s, R, minv := MontgomerySetup(m);
    var factor := Shl64(2, s) % m;
    FactorForm(m, s);
    DivModSpec(Shl64(2, s), m);
    DivModSpec(R, m);
    total := R % m;
    OneForm(m, s, R);
    var bit, k0 := HighestSetBit64(p);
    ghost var k: int := k0;
    TopPrefix(p, k0);
    while bit != 0
      invariant MaskBit(bit, k) && k <= k0
      invariant total < m
      invariant s <= 62 ==> Represents(total, Pow2(Prefix(p, k + 1)), s, m)
      invariant s == 63 && k < k0 ==> total == 0
      decreases k
    {
      NextBit(p, k);
      total := MontgomeryBit(total, factor, BitAnd(p, bit) != 0, m, minv, R - 1, s, Prefix(p, k + 1));
      NextMask(k);
      bit := Shr64(bit, 1);
      k := k - 1;
    }
    AllBits(p);
    total := FromMontgomery(total, m, minv, R - 1, s, Pow2(p));
  }

  /** Leaving the Montgomery form: a product with 1. */
  method FromMontgomery(t: u64, m: u64, minv: u64, mask: u64, s: nat, ghost a: nat) returns (r: u64)
    requires MontParams(m, minv, mask, s) && t < m
    ensures Represents(t, a, s, m) ==> r == a % m
    ensures t == 0 ==> r == 0
  {
    OneBelow(t, m, Pow2(s));
    r := MontgomeryMult(t, 1, m, minv, mask, s);
    if Represents(t, a, s, m) {
      CancelCong(r, a, s, m);
      DivModUnique(r, m, 0, r);
    }
    if t == 0 {
      ZeroProduct(r, s, m);
    }
  }

  lemma OneBelow(a: int, m: int, r: int)
    requires 0 <= a < m < r
    ensures a * 1 < m * r
  {
    MulMonotone(m, 1, r);
  }

  // ----- 2^p mod m

  /** Dividing by m is exact for every dividend. */
  predicate DivExact(m: nat)
    requires m > 0
  {
    m + B128 % m <= B64
  }

  /** The division misses its correction: the remainder before it does not fit in 64 bits. */
  predicate Misses(v: nat, m: nat)
    requires m > 0
  {
    Uncorrected(v, m) >= B64
  }

  /** What the code takes for v % m. */
  function Reduced(v: nat, m: nat): (r: nat)
    requires v < B128 && 2 <= m < B64
    ensures r < m
  {
    UncorrectedBounds(v, m);
    DivModSpec(v, m);
    if Misses(v, m) then v % m + m - B64 else v % m
  }

  /** One bit of the exponent by square and shift, as the code computes it. */
  function CodeStep(v: nat, one: bool, m: nat): (r: nat)
    requires 2 <= m < B64 && (v < m || v == 2)
    ensures r < m
  {
    SquareFits(v, m);
    var x := if v * v >= m then Reduced(v * v, m) else v * v;
    if !one then x else if 2 * x < m then 2 * x else 2 * x - m
  }

  /** What the loop computes for 2^e % m, bit by bit from the top. */
  function CodePow(e: nat, m: nat): (r: nat)
    requires 2 <= m < B64
    ensures r < m || r == 2
  {
    if e <= 1 then 2 else CodeStep(CodePow(e / 2, m), e % 2 == 1, m)
  }

  /** None of the divisions on the way to 2^e misses its correction. */
  predicate NoMiss(e: nat, m: nat)
    requires 2 <= m < B64
  {
    e <= 1 || (NoMiss(e / 2, m) && (var v := CodePow(e / 2, m); v * v >= m ==> !Misses(v * v, m)))
  }

  /** Without a miss the loop has the power. */
  lemma {:induction false} CodePowRight(e: nat, m: nat)
    requires 2 <= m < B64 && NoMiss(e, m) && e > 0
    ensures CodePow(e, m) % m == Pow2(e) % m
    ensures !(m == 2 && e == 1) ==> CodePow(e, m) == Pow2(e) % m
  {
    if e == 1 {
      assert Pow2(1) == 2;
    } else {
      CodePowRight(e / 2, m);
      RightStep(CodePow(e / 2, m), e / 2, e % 2, m);
      Halves(e);
    }
    if CodePow(e, m) < m {
      DivModUnique(CodePow(e, m), m, 0, CodePow(e, m));
    }
  }

  /** A step whose division does not miss, from the power. */
  lemma RightStep(v: nat, a: nat, d: nat, m: nat)
    requires 2 <= m < B64 && (v < m || v == 2) && v % m == Pow2(a) % m && d <= 1
    requires v * v >= m ==> !Misses(v * v, m)
    ensures CodeStep(v, d == 1, m) == Pow2(2 * a + d) % m
  {
    var w := v * v;
    SquareCong(v, Pow2(a), m);
    PowStep(a, d);
    SquareFits(v, m);
    if w < m { DivModUnique(w, m, 0, w); }
    DivModSpec(w, m);
    if d == 1 {
      ModMulCong(2, w, Pow2(a) * Pow2(a), m);
      ModMulRight(2, w, m);
      DoubledMod(w % m, m);
    }
  }

  /**
   * Let the exponent without its last bit be free of misses. Then the result is right exactly when the last
   * division does not miss either: a first miss that is the last division leaves a wrong result.
   */
  lemma FirstMiss(e: nat, m: nat)
    requires 2 <= m < B64 && e >= 2 && NoMiss(e / 2, m)
    ensures CodePow(e, m) == Pow2(e) % m <==> NoMiss(e, m)
  {
    var v, d := CodePow(e / 2, m), e % 2;
    CodeUnfolds(e, m);
    Halves(e);
    hide CodePow, NoMiss, CodeStep, Misses;
    CodePowRight(e / 2, m);
    SquareFits(v, m);
    if v * v >= m && Misses(v * v, m) {
      MissedStep(v, e / 2, d, m);
    } else {
      RightStep(v, e / 2, d, m);
    }
  }

  lemma CodeUnfolds(e: nat, m: nat)
    requires 2 <= m < B64 && e >= 2
    ensures CodePow(e, m) == CodeStep(CodePow(e / 2, m), e % 2 == 1, m)
    ensures NoMiss(e, m) <==> NoMiss(e / 2, m) && (CodePow(e / 2, m) * CodePow(e / 2, m) >= m ==> !Misses(CodePow(e / 2, m) * CodePow(e / 2, m), m))
  {
    hide CodeStep, Misses;
  }

  lemma Halves(e: nat)
    ensures e == 2 * (e / 2) + e % 2 && 0 <= e % 2 <= 1
  {}

  lemma MissedStep(v: nat, a: nat, d: nat, m: nat)
    requires 2 <= m < B64 && (v < m || v == 2) && v % m == Pow2(a) % m && d <= 1
    requires v * v < B128 && v * v >= m && Misses(v * v, m)
    ensures CodeStep(v, d == 1, m) != Pow2(2 * a + d) % m
  {
    var w := v * v;
    SquareCong(v, Pow2(a), m);
    PowStep(a, d);
    UncorrectedBounds(w, m);
    DivisionExactness(m);
    DivModSpec(w, m);
    var x, y := Reduced(w, m), w % m;
    assert y - x == B64 - m && B63 < m;
    if d == 1 {
      ModMulCong(2, w, Pow2(a) * Pow2(a), m);
      ModMulRight(2, w, m);
      DoubledMod(y, m);
      DoublesDiffer(x, y, m);
    }
  }

  // 3 does not divide 2^65.
  lemma DoublesDiffer(x: nat, y: nat, m: nat)
    requires B63 < m < B64 && y < m && y - x == B64 - m
    ensures (if 2 * x < m then 2 * x else 2 * x - m) != (if 2 * y < m then 2 * y else 2 * y - m)
  {
    assert 3 * m != 2 * B64 by { assert (2 * B64) % 3 == 2; }
  }

  const MISSED: nat := 0xcfffffffffffffee

  /** 2^132 modulo 0xcfffffffffffffee comes out wrong: the last of its divisions misses the correction. */
  lemma EvenModulusFails()
    ensures MISSED % 2 == 0 && CodePow(132, MISSED) != Pow2(132) % MISSED
  {
    var v := UpTo66();
    MissedSquare();
    hide CodePow, NoMiss, Misses;
    LastDivision(132, MISSED);
    FirstMiss(132, MISSED);
  }

  lemma MissedSquare()
    ensures Misses(0xc000000000000048 * 0xc000000000000048, MISSED)
  {
    DivModUnique(B128, MISSED, 0x13b13b13b13b13b2e, 0xc76276276276293c);
    DivModUnique(0x13b13b13b13b13b2e * (0xc000000000000048 * 0xc000000000000048), B128, 0xb13b13b13b13b1ce, 0xcc4ec4ec4ec510544ec4ec4ec4ee6380);
  }

  lemma LastDivision(e: nat, m: nat)
    requires 2 <= m < B64 && e >= 2
    ensures ghost var v := CodePow(e / 2, m); v * v >= m && Misses(v * v, m) ==> !NoMiss(e, m)
  {
    CodeUnfolds(e, m);
  }

  lemma UpTo66() returns (v: nat)
    ensures v == 0xc000000000000048 == CodePow(66, MISSED) && NoMiss(66, MISSED)
  {
    v := 0xc000000000000048;
    UpTo33();
    DivModUnique(B128, MISSED, 0x13b13b13b13b13b2e, 0xc76276276276293c);
    DivModUnique(0x13b13b13b13b13b2e * 0x40000000000000000, B128, 4, 0xec4ec4ec4ec4ecb80000000000000000);
    DivModUnique(0x40000000000000000, MISSED, 4, v);
    CodeUnfolds(66, MISSED);
  }

  lemma UpTo33()
    ensures CodePow(33, MISSED) == 0x2_0000_0000 && NoMiss(33, MISSED)
  {
    assert CodePow(1, MISSED) == 2 && NoMiss(1, MISSED);
    hide CodePow, NoMiss;
    Unreduced(2, MISSED, 2);
    Unreduced(4, MISSED, 4);
    Unreduced(8, MISSED, 16);
    Unreduced(16, MISSED, 256);
    Unreduced(33, MISSED, 65536);
  }

  lemma Unreduced(e: nat, m: nat, v: nat)
    requires 2 <= m < B64 && e >= 2 && CodePow(e / 2, m) == v && NoMiss(e / 2, m) && 2 * (v * v) < m
    ensures CodePow(e, m) == (if e % 2 == 1 then 2 * (v * v) else v * v) && NoMiss(e, m)
  {
    CodeUnfolds(e, m);
  }

  /** With a modulus by which division is exact, nothing is missed. */
  lemma {:induction false} ExactNoMiss(e: nat, m: nat)
    requires 2 <= m < B64 && DivExact(m)
    ensures NoMiss(e, m)
  {
    if e > 1 {
      ExactNoMiss(e / 2, m);
      DivisionExactness(m);
      SquareFits(CodePow(e / 2, m), m);
    }
  }

  /** result % modulo, on the number the words stand for. */
  method Mod64(x: Int128, m: u64, ghost v: nat) returns (r: Int128)
    requires v == x.Value() && m >= 2
    ensures r.Value() == Reduced(v, m)
  {
    var quotient, modulo := DivMod(x, m);
    r := FromParts(0, modulo);
  }

  /** One bit of the exponent by square-and-shift; v is the value before, below m or the initial 2. */
  method SquareAndShift(x: Int128, one: bool, m: u64, ghost v: nat) returns (r: Int128)
    requires v == x.Value() && m >= 2 && (v < m || v == 2)
    ensures r.Value() == CodeStep(v, one, m)
  {
    SquareFits(v, m);
    r := Squared(x, v);
    var above := AtLeast64(r, m);
    if above {
      r := Mod64(r, m, r.Value());
    }
    if one {
      DoubledMod(r.Value(), m);
      r := Doubled(r, m, r.Value());
    }
  }

  method Squared(x: Int128, ghost v: nat) returns (r: Int128)
    requires v == x.Value()
    ensures r.Value() == v * v % B128
  {
    r := Mult128Lo(x, x);
  }

  method Doubled(x: Int128, m: u64, ghost v: nat) returns (r: Int128)
    requires v == x.Value()
    ensures v < m ==> r.Value() < m && r.Value() == (2 * v) % m
  {
    r := ShiftOne(x, v);
    DoubledMod(v, m);
    var wide := FromParts(0, m);
    if !Less(r, wide) {
      r := Sub(r, wide);
    }
  }

  method ShiftOne(x: Int128, ghost v: nat) returns (r: Int128)
    requires v == x.Value()
    ensures r.Value() == 2 * v % B128
  {
    assert Pow2(1) == 2;
    r := ShiftLeft(x, 1);
  }

  lemma DoubledMod(v: nat, m: nat)
    requires m < B64
    ensures v < m ==> 2 * v % B128 == 2 * v
    ensures v < m ==> (2 * v) % m == if 2 * v < m then 2 * v else 2 * v - m
  {
    if v < m {
      DivModUnique(2 * v, B128, 0, 2 * v);
      DivModUnique(2 * v, m, if 2 * v < m then 0 else 1, if 2 * v < m then 2 * v else 2 * v - m);
    }
  }

  lemma SquareFits(v: nat, m: nat)
    requires v < m || v == 2
    requires m < B64
    ensures 0 <= v * v < B128 && v * v % B128 == v * v
  {
    SquareBound(v, B64 - 1);
    DivModUnique(v * v, B128, 0, v * v);
  }

  /** The arguments on which modPow2 returns 2^p mod m, among the moduli up to 2^63. */
  predicate ModPow2Right(p: nat, m: nat) {
    !(m % 2 == 1 && m > B62 && p > 0) && !(p == 0 && m == 1) && !(p == 1 && m == 2)
  }

  /**
   * modPow2. A shift by 64 rules out odd moduli of 2^63 and above; a zero modulus is a division by zero.
   */
  method ModPow2(exponent: u64, modulo: u64) returns (r: u64)
    requires modulo > 0 && (modulo % 2 == 1 ==> modulo < B63)
    ensures modulo <= B63 ==> (r == Pow2(exponent) % modulo <==> ModPow2Right(exponent, modulo))
    ensures modulo % 2 == 0 && exponent > 0 ==> r == CodePow(exponent, modulo)
    ensures modulo >= 4 && modulo % 2 == 0 && NoMiss(exponent, modulo) ==> r == Pow2(exponent) % modulo
    ensures modulo % 2 == 1 && modulo > B62 && exponent > 0 ==> r == 0
  {
    if exponent == 0 {
      SmallPower(modulo);
      return 1;
    }
    if BitAnd(modulo, 1) == 1 {
      OddBit(modulo);
      r := MontgomeryModPow2(exponent, modulo);
      if modulo > B62 {
        OddPowerNonzero(exponent, modulo);
      }
      return;
    }
    OddBit(modulo);
    r := SquareAndShiftAll(exponent, modulo);
    EvenPower(exponent, modulo);
  }

  lemma EvenPower(e: nat, m: nat)
    requires 2 <= m < B64 && e > 0
    ensures NoMiss(e, m) && !(m == 2 && e == 1) ==> CodePow(e, m) == Pow2(e) % m
    ensures m <= B63 ==> NoMiss(e, m)
    ensures m == 2 && e == 1 ==> CodePow(e, m) != Pow2(e) % m
  {
    if NoMiss(e, m) { CodePowRight(e, m); }
    if m <= B63 {
      DivisionExactness(m);
      ExactNoMiss(e, m);
    }
  }

  lemma OddBit(m: nat)
    requires m > 0
    ensures BitAnd(m, 1) == m % 2
  {
    assert Pow2(0) == 1;
    AndMask(m, 1, 2);
  }

  lemma SmallPower(m: nat)
    requires m > 0
    ensures Pow2(0) % m == (if m == 1 then 0 else 1)
  {
    if m == 1 {
      DivModUnique(1, 1, 1, 0);
    } else {
      DivModUnique(1, m, 0, 1);
    }
  }

  method SquareAndShiftAll(exponent: u64, modulo: u64) returns (r: u64)
    requires exponent > 0 && modulo >= 2
    ensures r == CodePow(exponent, modulo)
  {
    hide Prefix, CodeStep, CodePow;
    var result := FromParts(0, 2);
    var bit, k0 := HighestSetBit64(exponent);
    NextMask(k0);
    bit := Shr64(bit, 1);
    ghost var k: int := k0 as int - 1;
    TopBit(exponent, k0, modulo);
    while bit > 0
      invariant MaskBit(bit, k) && k < k0
      invariant result.Value() == CodePow(Prefix(exponent, k + 1), modulo)
      decreases k
    {
      Pow2Monotone(k + 1, k0);
      NextPow(exponent, k, modulo);
      result := SquareAndShift(result, BitAnd(exponent, bit) != 0, modulo, result.Value());
      NextMask(k);
      bit := Shr64(bit, 1);
      k := k - 1;
    }
    r := result.Part0();
    AllBits(exponent);
    LowPart(result.Part1(), result.Part0(), result.Value());
  }

  lemma LowPart(hi: u64, lo: u64, v: nat)
    requires v == hi * B64 + lo
    ensures v < B64 ==> lo == v
  {}

  lemma TopBit(p: nat, k0: nat, m: nat)
    requires Pow2(k0) <= p < Pow2(k0 + 1) && 2 <= m < B64
    ensures CodePow(Prefix(p, k0), m) == 2
  {
    DivModUnique(p, Pow2(k0), 1, p - Pow2(k0));
  }

  lemma NextPow(p: nat, k: nat, m: nat)
    requires 2 <= m < B64 && p >= Pow2(k + 1)
    ensures CodePow(Prefix(p, k), m) == CodeStep(CodePow(Prefix(p, k + 1), m), BitAnd(p, Pow2(k)) != 0, m)
  {
    NextBit(p, k);
    DivMonotone(Pow2(k + 1), p, Pow2(k + 1));
    DivModUnique(Pow2(k + 1), Pow2(k + 1), 1, 0);
    var q := Prefix(p, k);
    assert q / 2 == Prefix(p, k + 1) && q >= 2;
  }

  lemma AllBits(p: nat)
    ensures Prefix(p, 0) == p
  {
    DivModUnique(p, 1, p, 0);
  }

  lemma SquareCong(w: int, a: int, m: int)
    requires m > 0 && w % m == a % m
    ensures (w * w) % m == (a * a) % m
  {
    ModMulCong(w, w, a, m);
    ModMulCong(a, w, a, m);
    assert w * a == a * w;
  }

  // ----- fractions

  /**
   * fraction: the top 64 bits of the fractional part of numerator / divisor, exactly when the uncorrected
   * remainder of the division fits in 64 bits, which it does wherever division by the divisor is exact.
   */
  method Fraction(numerator: u64, divisor: u64) returns (r: u64)
    requires divisor > 0
    ensures r == (numerator * B64 / divisor) % B64 <==> Uncorrected(numerator * B64, divisor) < B64
    ensures DivExact(divisor) ==> r == (numerator * B64 / divisor) % B64
  {
    var wide := FromParts(numerator, 0);
    ghost var v := numerator * B64;
    ExactFits(v, divisor);
    var quotient, modulo := DivMod(wide, divisor);
    r := quotient.Part0();
    OneShort(v / divisor, quotient.Part1(), quotient.Part0());
  }

  lemma ExactFits(v: nat, d: nat)
    requires 0 < d < B64 && v < B128
    ensures DivExact(d) ==> Uncorrected(v, d) < B64
  {
    if d >= 2 {
      DivisionExactness(d);
    } else {
      DivModUnique(B128, 1, B128, 0);
      DivModUnique(B128 * v, B128, v, 0);
    }
  }

  // The low word of q, and of q - 1, tells the two apart.
  lemma OneShort(q: nat, hi: u64, lo: u64)
    ensures q == hi * B64 + lo ==> lo == q % B64
    ensures q - 1 == hi * B64 + lo ==> lo != q % B64
  {
    if q == hi * B64 + lo {
      DivModUnique(q, B64, hi, lo);
    } else if q - 1 == hi * B64 + lo {
      if lo + 1 < B64 {
        DivModUnique(q, B64, hi, lo + 1);
      } else {
        DivModUnique(q, B64, hi + 1, 0);
      }
    }
  }
}
