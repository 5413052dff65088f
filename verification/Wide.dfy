/** 128-bit unsigned integers held in four 32-bit words: class Int128, portable path. */
module Wide {
  import opened Bits
  import opened Words

  datatype Int128 = Int128(w0: u32, w1: u32, w2: u32, w3: u32) {
    function Part0(): u64 { Join64(w1, w0) }

    function Part1(): u64 { Join64(w3, w2) }

    /** The number the four words stand for. */
    ghost function Value(): (r: nat)
      ensures r < B128
      ensures r == Part1() * B64 + Part0()
    {
      w0 + w1 * B32 + w2 * B64 + w3 * B96
    }
  }

  method FromParts(hi: u64, lo: u64) returns (r: Int128)
    ensures r.Part1() == hi && r.Part0() == lo
    ensures r.Value() == hi * B64 + lo
  {
    var w1, w0 := Split64(lo);
    var w3, w2 := Split64(hi);
    r := Int128(w0, w1, w2, w3);
  }

  method WithPart0(x: Int128, lo: u64) returns (r: Int128)
    ensures r.Part0() == lo && r.Part1() == x.Part1()
  {
    var w1, w0 := Split64(lo);
    r := x.(w0 := w0, w1 := w1);
  }

  method WithPart1(x: Int128, hi: u64) returns (r: Int128)
    ensures r.Part0() == x.Part0() && r.Part1() == hi
  {
    var w3, w2 := Split64(hi);
    r := x.(w2 := w2, w3 := w3);
  }

  // ----- comparisons

  /** The word-by-word comparison orders the values, and word equality is value equality. */
  function Less(a: Int128, b: Int128): (r: bool)
    ensures r <==> a.Value() < b.Value()
  {
    if a.w3 == b.w3 then
      if a.w2 == b.w2 then
        if a.w1 == b.w1 then a.w0 < b.w0 else a.w1 < b.w1
      else a.w2 < b.w2
    else a.w3 < b.w3
  }

  lemma WordsDetermineValue(a: Int128, b: Int128)
    requires a.Value() == b.Value()
    ensures a == b
  {
    assert !Less(a, b) && !Less(b, a);
  }

  /** *this >= x for a 64-bit x. */
  method AtLeast64(a: Int128, x: u64) returns (r: bool)
    ensures r <==> a.Value() >= x
  {
    var wide := FromParts(0, x);
    r := !Less(a, wide);
  }

  // ----- addition and subtraction, modulo 2^128

  method Add(a: Int128, b: Int128) returns (result: Int128)
    ensures result.Value() == (a.Value() + b.Value()) % B128
    ensures a.Value() + b.Value() < B128 ==> result.Value() == a.Value() + b.Value()
  {
    var r0, c0 := AddCarryOut(a.w0, b.w0);
    var r1, c1 := AddCarryInOut(a.w1, b.w1, c0);
    var r2, c2 := AddCarryInOut(a.w2, b.w2, c1);
    var r3 := AddCarryIn(a.w3, b.w3, c2);
    result := Int128(r0, r1, r2, r3);
    TopWords(a.Value() + b.Value(), a.w3 + b.w3 + c2, result.Value(), r3);
  }

  /** The word above bit 95 wraps, so the whole sum wraps modulo 2^128. */
  lemma TopWords(sum: int, top: int, v: int, r3: u32)
    requires r3 == Wrap32(top) && 0 <= v < B128
    requires sum - top * B96 == v - r3 * B96
    ensures sum % B128 == v
  {
    DivModUnique(sum, B128, top / B32, v);
  }

  /** Adding a 32-bit value: a carry is seen by the sum falling below the old word. */
  method Add32(a: Int128, x: u32) returns (result: Int128)
    ensures result.Value() == (a.Value() + x) % B128
    ensures a.Value() + x < B128 ==> result.Value() == a.Value() + x
  {
    var r0 := PlusWord(a.w0, x);
    var r1 := PlusWord(a.w1, Bit(r0 < a.w0));
    var r2 := PlusWord(a.w2, Bit(r1 < a.w1));
    var r3 := PlusWord(a.w3, Bit(r2 < a.w2));
    result := Int128(r0, r1, r2, r3);
    DivModUnique(a.Value() + x, B128, Bit(r3 < a.w3), result.Value());
  }

  /** a + x in 32 bits; the sum is below a exactly when it wrapped. */
  method PlusWord(a: u32, x: u32) returns (r: u32)
    ensures r + Bit(r < a) * B32 == a + x
  {
    r := Wrap32(a + x);
  }

  method Sub(a: Int128, b: Int128) returns (result: Int128)
    ensures result.Value() == (a.Value() - b.Value()) % B128
    ensures a.Value() >= b.Value() ==> result.Value() == a.Value() - b.Value()
  {
    var r0, c0 := SubBorrowOut(a.w0, b.w0);
    var r1, c1 := SubBorrowInOut(a.w1, b.w1, c0);
    var r2, c2 := SubBorrowInOut(a.w2, b.w2, c1);
    var r3 := SubBorrowIn(a.w3, b.w3, c2);
    result := Int128(r0, r1, r2, r3);
    TopWords(a.Value() - b.Value(), a.w3 - b.w3 - c2, result.Value(), r3);
  }

  // ----- shifts

  /** The shift distance is masked to seven bits. */
  lemma ShiftDistance(s: u32)
    ensures BitAnd(s, 127) == s % 128
  {
    assert Pow2(7) == 128;
    AndMask(s, 7, 128);
  }

  method ShiftLeft(x: Int128, s0: u32) returns (result: Int128)
    ensures result.Value() == (x.Value() * Pow2(s0 % 128)) % B128
  {
    ShiftDistance(s0);
    var s := BitAnd(s0, 127);
    if s <= 0 {
      PowersOfWords();
      assert x.Value() * Pow2(0) == x.Value();
      return x;
    }
    if s >= 64 {
      result := FromParts(Shl64(x.Part0(), s - 64), 0);
      LeftPastHalf(x, s);
    } else {
      LeftWithinHalf(x, s);
      result := FromParts(BitOr(Shl64(x.Part1(), s), Shr64(x.Part0(), 64 - s)), Shl64(x.Part0(), s));
    }
  }

  lemma LeftPastHalf(x: Int128, s: nat)
    requires 64 <= s < 128
    ensures Shl64(x.Part0(), s - 64) * B64 == (x.Value() * Pow2(s)) % B128
  {
    PowersOfWords();
    Pow2Add(64, s - 64);
    ShiftPastHalf(x.Part1(), x.Part0(), Pow2(s - 64));
  }

  lemma LeftWithinHalf(x: Int128, s: nat)
    requires 0 < s < 64
    ensures BitOr(Shl64(x.Part1(), s), Shr64(x.Part0(), 64 - s)) * B64 + Shl64(x.Part0(), s) == (x.Value() * Pow2(s)) % B128
  {
    PowersOfWords();
    var m, j := Pow2(s), Pow2(64 - s);
    Pow2Add(s, 64 - s);
    SplitWord(x.Part0(), m, j);
    SplitWord(x.Part1(), m, j);
    OrDisjoint(x.Part1() % j, x.Part0() / j, s);
    ShiftJoined(x.Part1(), x.Part0(), m, j);
  }

  /** With m * j == 2^64: shifting a word left by m keeps x % j, shifting it right by j keeps x / j < m. */
  lemma SplitWord(x: u64, m: int, j: int)
    requires m > 0 && j > 0 && m * j == B64
    ensures x * m == (x / j) * B64 + (x % j) * m
    ensures 0 <= (x % j) * m <= B64 - m
    ensures Wrap64(x * m) == (x % j) * m
    ensures 0 <= x / j < m && 0 <= x % j
  {
    DivNat(x, j);
    DivModSpec(x, j);
    DivBelow(x, j, m);
    SplitScaled(x, m, j, x / j, x % j);
  }

  lemma SplitScaled(x: int, m: int, j: int, q: int, r: int)
    requires m > 0 && m * j == B64
    requires x == j * q + r && 0 <= r < j
    ensures x * m == q * B64 + r * m
    ensures 0 <= r * m <= B64 - m
  {
    MulShuffle(j, q, m);
    MulShuffle(m, j, 1);
    assert (j * q + r) * m == (j * q) * m + r * m;
    MulMonotone(m, r, j - 1);
    MulMonotone(m, 0, r);
    assert m * (j - 1) == m * j - m;
    MulShuffle(m, r, 1);
  }

  lemma MulShuffle(a: int, b: int, c: int)
    ensures (a * b) * c == b * (c * a) && (a * b) * c == a * (b * c) && a * b == b * a
  {
  }

  lemma ShiftPastHalf(hi: u64, lo: u64, k: int)
    ensures ((hi * B64 + lo) * (B64 * k)) % B128
         == Wrap64(lo * k) * B64
  {
    var p, q := hi * k, lo * k;
    var v := hi * B64 + lo;
    DistributeWord(hi, lo, k, v);
    assert v * (B64 * k) == (v * k) * B64;
    DivModSpec(q, B64);
    DivModUnique((v * k) * B64, B128,
                 p + q / B64, Wrap64(q) * B64);
  }

  lemma ShiftJoined(hi: u64, lo: u64, m: int, j: int)
    requires m > 0 && j > 0 && m * j == B64
    ensures ((hi * B64 + lo) * m) % B128
         == ((hi % j) * m + lo / j) * B64 + (lo % j) * m
  {
    SplitWord(hi, m, j);
    SplitWord(lo, m, j);
    var p, q := hi * m, lo * m;
    DistributeWord(hi, lo, m, hi * B64 + lo);
    DivModUnique(p * B64 + q, B128, hi / j,
                 ((hi % j) * m + lo / j) * B64 + (lo % j) * m);
  }

  method ShiftRight(x: Int128, s0: u32) returns (result: Int128)
    ensures result.Value() == x.Value() / Pow2(s0 % 128)
  {
    ShiftDistance(s0);
    var s := BitAnd(s0, 127);
    PowersOfWords();
    if s == 0 {
      DivModUnique(x.Value(), 1, x.Value(), 0);
      return x;
    }
    if s >= 64 {
      result := FromParts(0, Shr64(x.Part1(), s - 64));
      DivModUnique(x.Value(), B64, x.Part1(), x.Part0());
      DivDiv(x.Value(), B64, Pow2(s - 64));
      Pow2Add(64, s - 64);
    } else {
      ghost var m, j := Pow2(s), Pow2(64 - s);
      Pow2Add(s, 64 - s);
      MulShuffle(m, j, 1);
      SplitWord(x.Part0(), j, m);
      SplitWord(x.Part1(), j, m);
      OrDisjoint(x.Part1() % m, x.Part0() / m, 64 - s);
      OrCommutes(x.Part0() / m, (x.Part1() % m) * j);
      result := FromParts(Shr64(x.Part1(), s), BitOr(Shr64(x.Part0(), s), Shl64(x.Part1(), 64 - s)));
      UnshiftJoined(x.Part1(), x.Part0(), m, j);
    }
  }

  lemma UnshiftJoined(hi: u64, lo: u64, m: int, j: int)
    requires m > 0 && j > 0 && m * j == B64
    ensures (hi * B64 + lo) / m
         == (hi / m) * B64 + ((hi % m) * j + lo / m)
  {
    DivModSpec(hi, m);
    DivModSpec(lo, m);
    var u, v, q, r := hi / m, hi % m, lo / m, lo % m;
    MulShuffle(v, j, m);
    MulShuffle(m, j, v);
    calc {
      m * (u * B64 + (v * j + q)) + r;
      (m * u) * B64 + m * (v * j) + (m * q + r);
      (m * u + v) * B64 + lo;
    }
    DivModUnique(hi * B64 + lo, m, u * B64 + (v * j + q), r);
  }

  lemma OrCommutes(x: nat, y: nat)
    ensures BitOr(x, y) == BitOr(y, x)
    decreases x + y
  {
  }

  // ----- products

  method Mult64(a: u64, b: u64) returns (r: Int128)
    ensures r.Value() == a * b
  {
    var hi, lo := MultFull64(a, b);
    r := FromParts(hi, lo);
  }

  /** The full 256-bit product: four 128-bit products summed with 64-bit carries. */
  method Mult128(a: Int128, b: Int128) returns (resultHi: Int128, resultLo: Int128)
    ensures resultHi.Value() * B128 + resultLo.Value() == a.Value() * b.Value()
  {
    resultHi, resultLo := MultParts128(a.Part1(), a.Part0(), b.Part1(), b.Part0(), a.Value(), b.Value());
  }

  method MultParts128(a1: u64, a0: u64, b1: u64, b0: u64, ghost a: nat, ghost b: nat)
    returns (resultHi: Int128, resultLo: Int128)
    requires a == a1 * B64 + a0 && b == b1 * B64 + b0
    ensures resultHi.Value() * B128 + resultLo.Value() == a * b
  {
    WideProduct(a1, a0, b1, b0, a, b);
    resultLo := Mult64(a0, b0);
    resultHi := Mult64(a1, b1);
    var tmp := Mult64(a1, b0);
    resultHi, resultLo := AddMiddle(resultHi, resultLo, tmp);
    tmp := Mult64(a0, b1);
    resultHi, resultLo := AddMiddle(resultHi, resultLo, tmp);
  }

  lemma WideProduct(a1: u64, a0: u64, b1: u64, b0: u64, a: int, b: int)
    requires a == a1 * B64 + a0 && b == b1 * B64 + b0
    ensures a * b == a1 * b1 * B128 + (a1 * b0 + a0 * b1) * B64 + a0 * b0
    ensures a * b < B128 * B128
    ensures 0 <= a0 * b1
  {
    TwoDigitProduct(a1, a0, b1, b0, B64, a, b);
    ProductBound(a0, b1, B64);
    ProductBound(a, b, B128);
  }

  /** Adds a middle partial product into the 256-bit sum (hi, lo), two words up. */
  method AddMiddle(hi: Int128, lo: Int128, mid: Int128) returns (resultHi: Int128, resultLo: Int128)
    requires hi.Value() * B128 + lo.Value() + mid.Value() * B64
          < B128 * B128
    ensures resultHi.Value() * B128 + resultLo.Value()
         == hi.Value() * B128 + lo.Value() + mid.Value() * B64
  {
    var p, carry := AddCarryOut64(lo.Part1(), mid.Part0());
    resultLo := WithPart1(lo, p);
    p, carry := AddCarryInOut64(hi.Part0(), mid.Part1(), carry);
    resultHi := WithPart0(hi, p);
    NoOverflow(hi.Part1(), p, carry, resultLo.Value());
    resultHi := WithPart1(resultHi, AddCarryIn64(resultHi.Part1(), 0, carry));
  }

  lemma NoOverflow(h1: u64, h0: u64, carry: int, lo: nat)
    requires 0 <= carry <= 1
    requires ((h1 + carry) * B64 + h0) * B128 + lo
           < B128 * B128
    ensures AddCarryIn64(h1, 0, carry) == h1 + carry
  {
  }

  method Mult128Hi(a: Int128, b: Int128) returns (r: Int128)
    ensures r.Value() == a.Value() * b.Value() / B128
  {
    var hi, lo := Mult128(a, b);
    DivModUnique(a.Value() * b.Value(), B128, hi.Value(), lo.Value());
    r := hi;
  }

  method Mult128Lo(a: Int128, b: Int128) returns (r: Int128)
    ensures r.Value() == a.Value() * b.Value() % B128
  {
    r := LowParts(a.Part1(), a.Part0(), b.Part1(), b.Part0(), a.Value(), b.Value());
  }

  method LowParts(a1: u64, a0: u64, b1: u64, b0: u64, ghost a: nat, ghost b: nat) returns (r: Int128)
    requires a == a1 * B64 + a0 && b == b1 * B64 + b0
    ensures r.Value() == a * b % B128
  {
    var hi := MultHi64(a0, b0);
    r := FromParts(Wrap64(hi + Wrap64(a0 * b1) + Wrap64(a1 * b0)), Wrap64(a0 * b0));
    WideProduct(a1, a0, b1, b0, a, b);
    LowProduct(a * b, a1 * b1, a1 * b0, a0 * b1, a0 * b0, r.Value());
  }

  lemma LowProduct(ab: int, p: int, mid1: int, mid2: int, lo: int, v: int)
    requires ab == p * B128 + (mid1 + mid2) * B64 + lo
    requires v == Wrap64(lo / B64 + Wrap64(mid2) + Wrap64(mid1)) * B64 + Wrap64(lo)
    ensures ab % B128 == v
  {
    var hi := lo / B64;
    var q2 := WrapTop(mid1, hi + Wrap64(mid2));
    DivModUnique(ab, B128, p + mid2 / B64 + q2, v);
  }

  /** operator*(u64): the high part wraps. */
  method Times64(a: Int128, x: u64) returns (r: Int128)
    ensures r.Value() == a.Value() * x % B128
    ensures a.Value() * x < B128 ==> r.Value() == a.Value() * x
  {
    r := HighWraps(a.Part1(), a.Part0(), x, a.Value());
    SmallProduct(a.Value(), x);
  }

  lemma SmallProduct(a: nat, x: nat)
    ensures 0 <= a * x
    ensures a * x < B128 ==> a * x % B128 == a * x
  {
    MulMonotone(a, 0, x);
    if a * x < B128 {
      DivModUnique(a * x, B128, 0, a * x);
    }
  }

  method HighWraps(a1: u64, a0: u64, x: u64, ghost a: nat) returns (r: Int128)
    requires a == a1 * B64 + a0
    ensures r.Value() == a * x % B128
  {
    var low := Mult64(a0, x);
    r := WithPart1(low, Wrap64(low.Part1() + Wrap64(a1 * x)));
    DistributeWord(a1, a0, x, a);
    ghost var q := WrapTop(a1 * x, low.Part1());
    DivModUnique(a * x, B128, q, r.Value());
  }

  lemma DistributeWord(hi: int, lo: int, m: int, t: int)
    requires t == hi * B64 + lo
    ensures t * m == (hi * m) * B64 + lo * m
  {
  }

  lemma WrapTop(p: int, l1: int) returns (q: int)
    ensures p + l1 == q * B64 + Wrap64(l1 + Wrap64(p))
  {
    var k := p / B64;
    q := k + (l1 + Wrap64(p)) / B64;
  }
}
