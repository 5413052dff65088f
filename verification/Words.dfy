/** 32- and 64-bit unsigned words with wrap-around, and the carry primitives of class CudaPiMath. */
module Words {
  import opened Bits

  const B32: int := 0x1_0000_0000
  const B64: int := 0x1_0000_0000_0000_0000
  const B96: int := 0x1_0000_0000_0000_0000_0000_0000
  const B128: int := 0x1_0000_0000_0000_0000_0000_0000_0000_0000

  type u32 = x: int | 0 <= x < 0x1_0000_0000
  type u64 = x: int | 0 <= x < 0x1_0000_0000_0000_0000

  function Wrap32(x: int): u32 {
    x % B32
  }

  function Wrap64(x: int): u64 {
    x % B64
  }

  /** x << s on a 64-bit word. */
  function Shl64(x: u64, s: nat): u64 {
    Wrap64(x * Pow2(s))
  }

  /** x >> s on a 64-bit word. */
  function Shr64(x: u64, s: nat): (r: u64)
    ensures r <= x
  {
    DivNat(x, Pow2(s));
    x / Pow2(s)
  }

  lemma DivNat(x: nat, m: int)
    requires m > 0
    ensures 0 <= x / m <= x
  {
    DivModSpec(x, m);
    var q := x / m;
    if q < 0 {
      MulMonotone(m, q, -1);
    }
    MulMonotone(q, 1, m);
  }

  /** The flag that C's comparisons leave in an int. */
  function Bit(b: bool): (r: int)
    ensures 0 <= r <= 1
  {
    if b then 1 else 0
  }

  lemma PowersOfWords()
    ensures Pow2(32) == B32 && Pow2(64) == B64 && Pow2(128) == B128
  {
    ghost var m := SmallPowers();
    Pow2Square(32, m[5]);
    Pow2Square(64, B64);
  }

  lemma Pow2Square(n: nat, v: int)
    requires Pow2(n) == v
    ensures Pow2(2 * n) == v * v
  {
    Pow2Add(n, n);
  }

  lemma SmallPowers() returns (m: seq<int>)
    ensures m == [2, 4, 16, 0x100, 0x1_0000, B32]
    ensures Pow2(0) == 1 && Pow2(1) == m[0] && Pow2(2) == m[1] && Pow2(4) == m[2]
         && Pow2(8) == m[3] && Pow2(16) == m[4] && Pow2(32) == m[5]
  {
    m := [2, 4, 16, 0x100, 0x1_0000, B32];
    Pow2Square(1, 2);
    Pow2Square(2, 4);
    Pow2Square(4, 16);
    Pow2Square(8, 0x100);
    Pow2Square(16, 0x1_0000);
  }

  /** Two 32-bit words as one 64-bit word. */
  function Join64(hi: u32, lo: u32): u64 {
    hi * B32 + lo
  }

  /** The bitwise join ((u64)hi << 32) | lo is positional: no bit of hi meets a bit of lo. */
  lemma JoinIsBitwise(hi: u32, lo: u32)
    ensures BitOr(Shl64(hi, 32), lo) == Join64(hi, lo)
  {
    PowersOfWords();
    OrDisjoint(hi, lo, 32);
    DivModUnique(hi * B32, B64, 0, hi * B32);
  }

  method Split64(x: u64) returns (hi: u32, lo: u32)
    ensures Join64(hi, lo) == x
  {
    PowersOfWords();
    lo := Wrap32(x);
    hi := Wrap32(Shr64(x, 32));
  }

  method AddCarryOut(a: u32, b: u32) returns (result: u32, carry: int)
    ensures 0 <= carry <= 1 && result + carry * B32 == a + b
  {
    result := Wrap32(a + b);
    carry := Bit(result < a);
  }

  method AddCarryInOut(a: u32, b: u32, carryIn: int) returns (result: u32, carry: int)
    requires 0 <= carryIn <= 1
    ensures 0 <= carry <= 1 && result + carry * B32 == a + b + carryIn
  {
    carry := carryIn;
    result := Wrap32(a + b + carry);
    if carry != 0 {
      carry := Bit(result <= a);
    } else {
      carry := Bit(result < a);
    }
  }

  function AddCarryIn(a: u32, b: u32, carry: int): u32 {
    Wrap32(a + b + carry)
  }

  method AddCarryOut64(a: u64, b: u64) returns (result: u64, carry: int)
    ensures 0 <= carry <= 1 && result + carry * B64 == a + b
  {
    result := Wrap64(a + b);
    carry := Bit(result < a);
  }

  method AddCarryInOut64(a: u64, b: u64, carryIn: int) returns (result: u64, carry: int)
    requires 0 <= carryIn <= 1
    ensures 0 <= carry <= 1 && result + carry * B64 == a + b + carryIn
  {
    carry := carryIn;
    result := Wrap64(a + b + carry);
    if carry != 0 {
      carry := Bit(result <= a);
    } else {
      carry := Bit(result < a);
    }
  }

  function AddCarryIn64(a: u64, b: u64, carry: int): u64 {
    Wrap64(a + b + carry)
  }

  method SubBorrowOut(a: u32, b: u32) returns (result: u32, carry: int)
    ensures 0 <= carry <= 1 && result - carry * B32 == a - b
  {
    result := Wrap32(a - b);
    carry := Bit(result > a);
  }

  method SubBorrowInOut(a: u32, b: u32, carryIn: int) returns (result: u32, carry: int)
    requires 0 <= carryIn <= 1
    ensures 0 <= carry <= 1 && result - carry * B32 == a - b - carryIn
  {
    carry := carryIn;
    result := Wrap32(a - b - carry);
    if carry != 0 {
      carry := Bit(result >= a);
    } else {
      carry := Bit(result > a);
    }
  }

  function SubBorrowIn(a: u32, b: u32, carry: int): u32 {
    Wrap32(a - b - carry)
  }

  lemma ProductBound(a: int, b: int, n: int)
    requires 0 <= a < n && 0 <= b < n
    ensures 0 <= a * b <= (n - 1) * (n - 1)
  {
    MulMonotone(a, 0, b);
    MulMonotone(a, b, n - 1);
    MulMonotone(n - 1, a, n - 1);
  }

  /** The high word of a 32x32-bit product, as C's 64-bit multiplication yields it. */
  function MultHi(f1: u32, f2: u32): u32 {
    ProductBound(f1, f2, B32);
    PowersOfWords();
    Wrap32(Shr64(f1 * f2, 32))
  }

  /** The low word of a 32x32-bit product: unsigned multiplication wraps. */
  function MultLo(f1: u32, f2: u32): u32 {
    Wrap32(f1 * f2)
  }

  lemma MultParts(f1: u32, f2: u32)
    ensures MultHi(f1, f2) * B32 + MultLo(f1, f2) == f1 * f2
    ensures MultHi(f1, f2) <= 0xFFFF_FFFE
  {
    ProductBound(f1, f2, B32);
    PowersOfWords();
  }

  /** Schoolbook expansion of a product x * y of two numbers with two digits to base n. */
  lemma TwoDigitProduct(a: int, b: int, c: int, d: int, n: int, x: int, y: int)
    requires x == a * n + b && y == c * n + d
    ensures x * y == a * c * (n * n) + (a * d + b * c) * n + b * d
  {
    var p, q := a * n, c * n;
    assert x * y == p * q + p * d + b * q + b * d;
    assert p * q == a * c * (n * n);
    assert p * d == (a * d) * n;
    assert b * q == (b * c) * n;
    assert (a * d) * n + (b * c) * n == (a * d + b * c) * n;
  }

  /** The portable 64x64 -> 128-bit product, built from four 32-bit products with hand-carried sums. */
  method MultFull64(f1: u64, f2: u64) returns (resultHi: u64, resultLo: u64)
    ensures resultHi * B64 + resultLo == f1 * f2
  {
    var a, b := Split64(f1);
    var c, d := Split64(f2);
    TwoDigitProduct(a, b, c, d, B32, f1, f2);
    MultParts(b, d); MultParts(a, d); MultParts(b, c); MultParts(a, c);
    ProductBound(f1, f2, B64);
    var result0, result1, result2, result3 :=
      SumPartials(MultHi(b, d), MultLo(b, d), MultHi(a, d), MultLo(a, d),
                  MultHi(b, c), MultLo(b, c), MultHi(a, c), MultLo(a, c));
    resultLo := Join64(result1, result0);
    resultHi := Join64(result3, result2);
  }

  /** The partial products bd, ad, bc, ac of MultFull64, each as (high, low) words, summed with their carries. */
  method SumPartials(bdHi: u32, bdLo: u32, adHi: u32, adLo: u32, bcHi: u32, bcLo: u32, acHi: u32, acLo: u32)
    returns (result0: u32, result1: u32, result2: u32, result3: u32)
    requires adHi <= 0xFFFF_FFFE
    requires PartialSum(bdHi, bdLo, adHi, adLo, bcHi, bcLo, acHi, acLo) < B128
    ensures result0 + result1 * B32 + result2 * B64 + result3 * B96
         == PartialSum(bdHi, bdLo, adHi, adLo, bcHi, bcLo, acHi, acLo)
  {
    hide AddCarryIn, PartialSum;
    var c1, c2, c3, c4;
    result0 := bdLo;
    result1 := bdHi;
    result1, c1 := AddCarryOut(adLo, result1);
    NoCarryOut(adHi, 0, c1);
    result2 := AddCarryIn(adHi, 0, c1);
    ghost var r1, r2 := result1, result2;
    result1, c2 := AddCarryOut(bcLo, result1);
    result2, c3 := AddCarryInOut(bcHi, result2, c2);
    NoCarryOut(0, 0, c3);
    result3 := AddCarryIn(0, 0, c3);
    ghost var s2 := result2;
    result2, c4 := AddCarryOut(acLo, result2);
    ghost var low := result0 + result1 * B32 + result2 * B64;
    Columns(bdHi, bdLo, adHi, adLo, bcHi, bcLo, acHi, acLo, r1, c1, r2, result1, c2, s2, c3, result2, c4);
    TopWord(acHi, result3, c4, low);
    result3 := AddCarryIn(acHi, result3, c4);
  }

  lemma NoCarryOut(a: u32, b: u32, carry: int)
    requires 0 <= carry <= 1 && a + b + carry < B32
    ensures AddCarryIn(a, b, carry) == a + b + carry
  {}

  // The sums of the columns, each with its carry, make up the sum of the partial products.
  lemma Columns(bdHi: u32, bdLo: u32, adHi: u32, adLo: u32, bcHi: u32, bcLo: u32, acHi: u32, acLo: u32,
                r1: u32, c1: int, r2: u32, s1: u32, c2: int, s2: u32, c3: int, t2: u32, c4: int)
    requires r1 + c1 * B32 == adLo + bdHi && r2 == adHi + c1
    requires s1 + c2 * B32 == bcLo + r1 && s2 + c3 * B32 == bcHi + r2 + c2
    requires t2 + c4 * B32 == acLo + s2
    ensures PartialSum(bdHi, bdLo, adHi, adLo, bcHi, bcLo, acHi, acLo)
         == bdLo + s1 * B32 + t2 * B64 + (acHi + c3 + c4) * B96
  {}

  lemma TopWord(a: u32, b: u32, carry: int, low: nat)
    requires 0 <= carry <= 1
    requires (a + b + carry) * B96 + low < B128
    ensures AddCarryIn(a, b, carry) == a + b + carry
  {
  }

  function PartialSum(bdHi: u32, bdLo: u32, adHi: u32, adLo: u32, bcHi: u32, bcLo: u32, acHi: u32, acLo: u32): int {
    (acHi * B32 + acLo) * B64
    + ((adHi * B32 + adLo) + (bcHi * B32 + bcLo)) * B32
    + (bdHi * B32 + bdLo)
  }

  method MultHi64(f1: u64, f2: u64) returns (r: u64)
    ensures r == f1 * f2 / B64
  {
    var resultHi, resultLo := MultFull64(f1, f2);
    DivModUnique(f1 * f2, B64, resultHi, resultLo);
    r := resultHi;
  }

  /** Binary search for the leading zeros, as the portable version does it. */
  method CountLeadingZeros64(x0: u64) returns (z: nat)
    ensures z <= 64 && (z == 64 <==> x0 == 0)
    ensures x0 > 0 ==> Pow2(63 - z) <= x0 < Pow2(64 - z)
  {
    ghost var m := SmallPowers();
    DivModUnique(x0, 1, x0, 0);
    var x, n := x0, 64;
    x, n := NarrowTo(x0, x, n, 32, B32, B64);
    x, n := NarrowTo(x0, x, n, 16, 0x1_0000, B32);
    x, n := NarrowTo(x0, x, n, 8, 0x100, 0x1_0000);
    x, n := NarrowTo(x0, x, n, 4, 16, 0x100);
    x, n := NarrowTo(x0, x, n, 2, 4, 16);
    z := LastTwoBits(x0, x, n);
  }

  method LastTwoBits(ghost x0: u64, x: u64, n: nat) returns (z: nat)
    requires 2 <= n <= 64 && x == x0 / Pow2(64 - n) && x < 4
    requires n < 64 ==> x > 0
    ensures z <= 64 && (z == 64 <==> x0 == 0)
    ensures x0 > 0 ==> Pow2(63 - z) <= x0 < Pow2(64 - z)
  {
    assert Pow2(1) == 2;
    var y := Wrap32(Shr64(x, 1));
    if y != 0 {
      ShiftMore(x0, 64 - n, 1);
      LeadingBit(x0, 65 - n);
      return n - 2;
    }
    if x == 1 {
      LeadingBit(x0, 64 - n);
    } else {
      DivModUnique(x0, 1, x0, 0);
    }
    return n - x;
  }

  /** One step of the search: if any bit at or above position k is set, drop the k low bits. */
  method NarrowTo(ghost x0: u64, x: u64, n: nat, k: nat, ghost m: int, ghost m2: int)
    returns (x1: u64, n1: nat)
    requires 1 <= k && 2 * k <= n <= 64 && m == Pow2(k) && m <= B32 && m2 == m * m
    requires x == x0 / Pow2(64 - n) && x < m2
    requires n < 64 ==> x > 0
    ensures k <= n1 <= n
    ensures x1 == x0 / Pow2(64 - n1) && x1 < m
    ensures n1 < 64 ==> x1 > 0
  {
    HighPart(x, k, m);
    x1, n1 := x, n;
    var y := Wrap32(Shr64(x, k));
    if y != 0 {
      ShiftMore(x0, 64 - n, k);
      n1 := n1 - k;
      x1 := y;
    }
  }

  lemma HighPart(x: u64, k: nat, m: int)
    requires m == Pow2(k) && m <= B32 && x < m * m
    ensures Wrap32(Shr64(x, k)) == x / Pow2(k) < m
    ensures x / Pow2(k) == 0 ==> x < m
  {
    DivBelow(x, m, m);
    DivModSpec(x, m);
    DivNat(x, m);
  }

  lemma ShiftMore(x: u64, s: nat, k: nat)
    ensures (x / Pow2(s)) / Pow2(k) == x / Pow2(s + k)
  {
    Pow2Add(s, k);
    DivDiv(x, Pow2(s), Pow2(k));
  }

  lemma DivDiv(x: int, m: int, n: int)
    requires m > 0 && n > 0
    ensures m * n > 0 && (x / m) / n == x / (m * n)
  {
    MulMonotone(m, 1, n);
    var q, r := x / m, x % m;
    var p, t := q / n, q % n;
    DivModSpec(x, m);
    DivModSpec(q, n);
    assert m * (n * p + t) == (m * n) * p + m * t;
    MulMonotone(m, 0, t);
    MulMonotone(m, t, n - 1);
    assert m * (n - 1) == m * n - m;
    DivModUnique(x, m * n, p, m * t + r);
  }

  lemma LeadingBit(x: u64, s: nat)
    requires x / Pow2(s) == 1
    ensures Pow2(s) <= x < Pow2(s + 1)
    ensures s <= 63
  {
    PowersOfWords();
    if s >= 64 {
      Pow2Monotone(64, s);
    }
    DivModSpec(x, Pow2(s));
  }

  /** The highest set bit, as a power of two. */
  method HighestSetBit64(x: u64) returns (r: u64, ghost k: nat)
    requires x > 0
    ensures k <= 63 && r == Pow2(k) && Pow2(k) <= x < Pow2(k + 1)
    ensures r <= x < 2 * r
  {
    var z := CountLeadingZeros64(x);
    k := 63 - z;
    PowersOfWords();
    Pow2Monotone(63 - z, 63);
    Pow2Monotone(63, 64);
    assert 1 * Pow2(63 - z) == Pow2(63 - z);
    r := Shl64(1, 63 - z);
  }
}
