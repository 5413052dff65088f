/**
 * Digit extraction for pi: the sequential reference of BBP.py, and the same sum as a MapReduce job
 * (chunked input, one mapper call per line, a modular reducer).
 */
module Bbp {
  import opened Basics
  import opened Bits
  import opened Words
  import opened ModPow
  import opened Newton
  import Seqs

  // ----- the sums both forms compute

  /** One term: the top 64 bits of the fractional part of 2^p / base. */
  ghost function Term(p: int, base: int): int {
    if p < 0 || base <= 0 then 0 else ((Pow2(p) % base) * B64 / base) % B64
  }

  /** Terms first .. first + n - 1 of a series, as an unbounded sum. */
  ghost function TermSum(scalePow: int, offset: int, first: nat, n: nat): int {
    if n == 0 then 0
    else TermSum(scalePow, offset, first, n - 1) + Term(scalePow - 4 * (first + n - 1), offset + 8 * (first + n - 1))
  }

  /** modPow2 returns 0 for this term, because (u64)2 << s overflows in the Montgomery form of its modulus. */
  predicate Lost(p: int, m: int) {
    m % 2 == 1 && m > B62 && p > 0
  }

  predicate LosesAt(scalePow: int, offset: int, i: int) {
    Lost(scalePow - 4 * i, offset + 8 * i)
  }

  /** The term as the 64-bit code computes it. */
  ghost function CodeTerm(p: int, m: int): int {
    if Lost(p, m) then 0 else Term(p, m)
  }

  ghost function CodeSum(scalePow: int, offset: int, first: nat, n: nat): int {
    if n == 0 then 0
    else CodeSum(scalePow, offset, first, n - 1) + CodeTerm(scalePow - 4 * (first + n - 1), offset + 8 * (first + n - 1))
  }

  /** What the lost terms among first .. first + n - 1 should have added. */
  ghost function LostSum(scalePow: int, offset: int, first: nat, n: nat): int {
    if n == 0 then 0
    else
      var p, m := scalePow - 4 * (first + n - 1), offset + 8 * (first + n - 1);
      LostSum(scalePow, offset, first, n - 1) + if Lost(p, m) then Term(p, m) else 0
  }

  lemma {:induction false} CodeSumIs(scalePow: int, offset: int, first: nat, n: nat)
    ensures CodeSum(scalePow, offset, first, n) == TermSum(scalePow, offset, first, n) - LostSum(scalePow, offset, first, n)
  {
    hide Term, Lost;
    if n > 0 {
      CodeSumIs(scalePow, offset, first, n - 1);
    }
  }

  /** The terms of two consecutive chunks sum to those of their union. */
  lemma {:induction false} CodeSumSplit(scalePow: int, offset: int, first: nat, n: nat, k: nat)
    ensures CodeSum(scalePow, offset, first, n + k)
         == CodeSum(scalePow, offset, first, n) + CodeSum(scalePow, offset, first + n, k)
    decreases k
  {
    hide CodeTerm;
    if k > 0 {
      CodeSumSplit(scalePow, offset, first, n, k - 1);
    }
  }

  /** The tail beyond exponent 0: the quotients t/base, (t/16)/(base + 8), ... until one vanishes. */
  ghost function Tail(t: nat, base: nat): int
    requires base > 0
    decreases t
  {
    if t < base then 0 else t / base + Tail(t / 16, base + 8)
  }

  /** One unconditional step of the tail; past its end every quotient is 0. */
  lemma TailStep(t: nat, base: nat)
    requires base > 0
    ensures t / base >= 0 && Tail(t, base) == t / base + Tail(t / 16, base + 8)
  {
    DivNat(t, base);
    if t < base {
      DivModUnique(t, base, 0, t);
    }
  }

  /** How many terms have a non-negative exponent. */
  function Iterations(scalePow: nat): (n: nat)
    ensures n > 0
  {
    scalePow / 4 + 1
  }

  /** The tail of a whole series, from the first negative exponent on. */
  ghost function WholeTail(scalePow: nat, offset: nat): int
    requires offset > 0
  {
    var n := Iterations(scalePow);
    Tail(Pow2(64 + scalePow - 4 * n), offset + 8 * n)
  }

  /** A whole series modulo 2^64. */
  ghost function Series(scalePow: nat, offset: nat): int
    requires offset > 0
  {
    (TermSum(scalePow, offset, 0, Iterations(scalePow)) + WholeTail(scalePow, offset)) % B64
  }

  /** The 16 hexadecimal digits of pi from a given position, as the four series combine them. */
  ghost function PiDigits(digit: nat): int {
    (Series(digit * 4 + 2, 1) - Series(digit * 4 + 1, 4) - Series(digit * 4, 5) - Series(digit * 4, 6) - digit) % B64
  }

  /** What a whole series loses in 64-bit arithmetic, and what the four series lose together. */
  ghost function LostSeries(scalePow: nat, offset: nat): int {
    LostSum(scalePow, offset, 0, Iterations(scalePow))
  }

  ghost function LostDigits(digit: nat): int {
    LostSeries(digit * 4 + 2, 1) - LostSeries(digit * 4 + 1, 4) - LostSeries(digit * 4, 5) - LostSeries(digit * 4, 6)
  }

  // ----- sums modulo 2^64

  lemma AddCong(u: int, v: int, x: int, y: int)
    requires u % B64 == v % B64 && x % B64 == y % B64
    ensures (u + x) % B64 == (v + y) % B64
    ensures (u - x) % B64 == (v - y) % B64
  {
    ModShift(v + y, B64, u / B64 - v / B64 + (x / B64 - y / B64));
    ModShift(v - y, B64, u / B64 - v / B64 - (x / B64 - y / B64));
  }

  lemma ModIdempotent(u: int)
    ensures (u % B64) % B64 == u % B64
    ensures 0 <= u < B64 ==> u % B64 == u
  {
  }

  // ----- the sequential reference (BBP.py)

  method IntTerm(p: nat, base: nat) returns (t: int)
    requires base > 0
    ensures t == Term(p, base) && 0 <= t < B64
  {
    t := (Pow2(p) % base * B64 / base) % B64;
  }

  /** The first loop of series_int for resultBits == 64. Python's pow(2, p, base) is the mathematical power. */
  method IntTerms(scalePow: nat, offset: nat) returns (sum: int, p: int, base: nat)
    requires offset > 0
    ensures sum == TermSum(scalePow, offset, 0, Iterations(scalePow)) % B64
    ensures p == scalePow - 4 * Iterations(scalePow) && base == offset + 8 * Iterations(scalePow)
  {
    hide Term;
    sum := 0;
    p := scalePow;
    base := offset;
    ghost var n := 0;
    while p >= 0
      invariant p == scalePow - 4 * n && base == offset + 8 * n && n <= Iterations(scalePow)
      invariant sum == TermSum(scalePow, offset, 0, n) % B64
      decreases p + 4
    {
      var t := IntTerm(p, base);
      NextTerm(scalePow, offset, n, sum, t);
      sum := (sum + t) % B64;
      p := p - 4;
      base := base + 8;
      n := n + 1;
    }
  }

  lemma NextTerm(scalePow: nat, offset: nat, n: nat, sum: int, t: int)
    requires sum == TermSum(scalePow, offset, 0, n) % B64 && t == Term(scalePow - 4 * n, offset + 8 * n)
    ensures (sum + t) % B64 == TermSum(scalePow, offset, 0, n + 1) % B64
  {
    hide Term;
    var before := TermSum(scalePow, offset, 0, n);
    assert TermSum(scalePow, offset, 0, n + 1) == before + t;
    hide TermSum;
    ModIdempotent(before);
    AddCong(sum, before, t, t);
  }

  /** The second loop of series_int, which tests before it advances the base. */
  method IntTail(t0: nat, base0: nat, sum0: int) returns (sum: int)
    requires base0 > 0 && t0 < B64
    ensures sum == sum0 + Tail(t0, base0)
  {
    var t, base := t0, base0;
    sum := sum0;
    var more := true;
    while more
      invariant base > 0 && 0 <= t < B64
      invariant sum + (if more then Tail(t, base) else 0) == sum0 + Tail(t0, base0)
      decreases more, t
    {
      TailStep(t, base);
      DivNat(t, base);
      ModIdempotent(t / base);
      var f := (t / base) % B64;
      sum := sum + f;
      t := t / 16;
      if t < base {
        more := false;
      } else {
        base := base + 8;
      }
    }
  }

  /** series_int for resultBits == 64. */
  method SeriesInt(scalePow: nat, offset: nat) returns (sum: int)
    requires offset > 0
    ensures sum == Series(scalePow, offset)
  {
    var p: int, base: nat;
    sum, p, base := IntTerms(scalePow, offset);
    ghost var regular := TermSum(scalePow, offset, 0, Iterations(scalePow));
    ShiftedUnit(p);
    sum := IntTail(B64 / Pow2(-p), base, sum);
    ModIdempotent(regular);
    ghost var tail := WholeTail(scalePow, offset);
    assert tail == Tail(Pow2(64 + p), base);
    AddCong(regular % B64, regular, tail, tail);
    sum := sum % B64;
  }

  lemma ShiftedUnit(p: int)
    requires -4 <= p <= -1
    ensures B64 / Pow2(-p) == Pow2(64 + p) < B64
    ensures Shl64(1, 64 + p) == Pow2(64 + p)
  {
    PowersOfWords();
    Pow2Add(-p, 64 + p);
    DivModUnique(B64, Pow2(-p), Pow2(64 + p), 0);
    Pow2Monotone(64 + p, 64);
    assert 1 * Pow2(64 + p) == Pow2(64 + p);
    ModIdempotent(Pow2(64 + p));
  }

  /** plouffe_int(digit, 64). */
  method PlouffeInt(digit: nat) returns (sum: int)
    ensures sum == PiDigits(digit)
  {
    hide Series;
    sum := 0;
    var s := SeriesInt(digit * 4 + 2, 1);
    sum := sum + s;
    s := SeriesInt(digit * 4 + 1, 4);
    sum := sum - s;
    s := SeriesInt(digit * 4, 5);
    sum := sum - s;
    s := SeriesInt(digit * 4, 6);
    sum := sum - s;
    sum := (sum - digit) % B64;
  }

  // ----- the digits as sums of quotients

  /** The quotient 2^e / base, rounded down; with no terms of negative exponent. */
  ghost function Quotient(e: int, base: nat): int
    requires base > 0
  {
    if e < 0 then 0 else Pow2(e) / base
  }

  /** The sum of 2^(64 + scalePow - 4 i) / (offset + 8 i), each rounded down, for i < n. */
  ghost function Quotients(scalePow: nat, offset: nat, n: nat): int
    requires offset > 0
  {
    if n == 0 then 0
    else Quotients(scalePow, offset, n - 1) + Quotient(64 + scalePow - 4 * (n - 1), offset + 8 * (n - 1))
  }

  /** A term of the reference is a whole quotient modulo 2^64, although the power is reduced first. */
  lemma TermIsQuotient(p: nat, base: nat)
    requires base > 0
    ensures Term(p, base) == (Pow2(64 + p) / base) % B64
  {
    var q, r := Pow2(p) / base, Pow2(p) % base;
    PowersOfWords();
    Pow2Add(64, p);
    DivModSpec(Pow2(p), base);
    assert B64 * (base * q + r) == r * B64 + base * (q * B64);
    hide Pow2;
    ModShift(r * B64, base, q * B64);
    ModShift(r * B64 / base, B64, q);
    assert q * B64 == B64 * q;
  }

  lemma {:induction false} TermsAreQuotients(scalePow: nat, offset: nat, n: nat)
    requires offset > 0 && n <= Iterations(scalePow)
    ensures TermSum(scalePow, offset, 0, n) % B64 == Quotients(scalePow, offset, n) % B64
  {
    if n > 0 {
      var p, base := scalePow - 4 * (n - 1), offset + 8 * (n - 1);
      hide Term, Pow2;
      TermsAreQuotients(scalePow, offset, n - 1);
      TermIsQuotient(p, base);
      var q := Quotient(64 + p, base);
      ModIdempotent(q);
      AddCong(TermSum(scalePow, offset, 0, n - 1), Quotients(scalePow, offset, n - 1), Term(p, base), q);
    }
  }

  /** From any index on, the tail is the sum of the quotients that are left. */
  lemma {:induction false} TailIsQuotients(scalePow: nat, offset: nat, i: nat, n: nat)
    requires offset > 0 && i <= n && 64 + scalePow < 4 * n
    ensures var e := 64 + scalePow - 4 * i;
      Quotients(scalePow, offset, n)
      == Quotients(scalePow, offset, i) + if e < 0 then 0 else Tail(Pow2(e), offset + 8 * i)
    decreases n - i
  {
    var e, base := 64 + scalePow - 4 * i, offset + 8 * i;
    if i < n {
      TailIsQuotients(scalePow, offset, i + 1, n);
      if e >= 0 {
        hide Quotients, Tail;
        TailStep(Pow2(e), base);
        Sixteenth(e);
        NoTail(base + 8);
        NextQuotient(scalePow, offset, i);
      } else {
        NextQuotient(scalePow, offset, i);
      }
    }
  }

  lemma Sixteenth(e: nat)
    ensures Pow2(e) / 16 == if e < 4 then 0 else Pow2(e - 4)
  {
    if e >= 4 {
      Pow2Add(4, e - 4);
      assert Pow2(4) == 16;
      DivModUnique(Pow2(e), 16, Pow2(e - 4), 0);
    } else {
      Pow2Monotone(e, 3);
      assert Pow2(3) == 8;
      DivModUnique(Pow2(e), 16, 0, Pow2(e));
    }
  }

  lemma NoTail(base: nat)
    requires base > 0
    ensures Tail(0, base) == 0
  {}

  lemma NextQuotient(scalePow: nat, offset: nat, i: nat)
    requires offset > 0
    ensures Quotients(scalePow, offset, i + 1)
      == Quotients(scalePow, offset, i) + Quotient(64 + scalePow - 4 * i, offset + 8 * i)
  {}

  /** A series is the sum of its quotients modulo 2^64, those of non-negative exponent and those of the tail alike. */
  lemma SeriesIsQuotients(scalePow: nat, offset: nat)
    requires offset > 0
    ensures Series(scalePow, offset) == Quotients(scalePow, offset, scalePow / 4 + 17) % B64
  {
    var n := Iterations(scalePow);
    hide Quotients, TermSum, Tail, Pow2;
    TermsAreQuotients(scalePow, offset, n);
    TailIsQuotients(scalePow, offset, n, n + 16);
    var tail := WholeTail(scalePow, offset);
    AddCong(TermSum(scalePow, offset, 0, n), Quotients(scalePow, offset, n), tail, tail);
  }

  /**
   * The digits are 2^64 * 16^digit * (4/(8 i + 1) - 2/(8 i + 4) - 1/(8 i + 5) - 1/(8 i + 6)) / 16^i summed over
   * i, each quotient rounded down, less the digit and modulo 2^64.
   */
  lemma DigitsAreQuotients(digit: nat)
    ensures PiDigits(digit) ==
      (Quotients(4 * digit + 2, 1, digit + 17) - Quotients(4 * digit + 1, 4, digit + 17)
       - Quotients(4 * digit, 5, digit + 17) - Quotients(4 * digit, 6, digit + 17) - digit) % B64
  {
    hide Quotients, Series;
    SeriesIsQuotients(digit * 4 + 2, 1);
    SeriesIsQuotients(digit * 4 + 1, 4);
    SeriesIsQuotients(digit * 4, 5);
    SeriesIsQuotients(digit * 4, 6);
    var a, b := Quotients(4 * digit + 2, 1, digit + 17), Quotients(4 * digit + 1, 4, digit + 17);
    var c, d := Quotients(4 * digit, 5, digit + 17), Quotients(4 * digit, 6, digit + 17);
    ModIdempotent(a);
    ModIdempotent(b);
    ModIdempotent(c);
    ModIdempotent(d);
    AddCong(a % B64, a, b % B64, b);
    AddCong(a % B64 - b % B64, a - b, c % B64, c);
    AddCong(a % B64 - b % B64 - c % B64, a - b - c, d % B64, d);
    AddCong(a % B64 - b % B64 - c % B64 - d % B64, a - b - c - d, digit, digit);
  }

  // ----- the mapper in 64-bit arithmetic

  /** The arguments are in the range of the 64-bit code: no shift by 64, and modPow2 returns CodeTerm's power. */
  predicate TermFits(p: int, m: int) {
    0 <= p < B64 && 0 < m <= B63 && !(p == 0 && m == 1) && !(p == 1 && m == 2)
  }

  predicate TermsFit(scalePow: int, offset: int, first: nat, n: nat) {
    forall i :: first <= i < first + n ==> TermFits(scalePow - 4 * i, offset + 8 * i)
  }

  method ComputeTerms(scalePow: u64, offset: nat, iterStart: u64, iters0: nat) returns (localSum: u64)
    requires TermsFit(scalePow, offset, iterStart, iters0)
    ensures localSum == CodeSum(scalePow, offset, iterStart, iters0) % B64
  {
    hide CodeTerm, TermFits;
    localSum := 0;
    var exponent: int := scalePow - 4 * iterStart;
    var modulo: int := offset + 8 * iterStart;
    var iters := iters0;
    ghost var n := 0;
    while iters > 0
      invariant iters + n == iters0
      invariant exponent == scalePow - 4 * (iterStart + n) && modulo == offset + 8 * (iterStart + n)
      invariant localSum == CodeSum(scalePow, offset, iterStart, n) % B64
    {
      assert TermFits(scalePow - 4 * (iterStart + n), offset + 8 * (iterStart + n));
      InWords(exponent, modulo);
      var x := OneTerm(exponent, modulo);
      AddWord(localSum, CodeSum(scalePow, offset, iterStart, n), x);
      exponent := exponent - 4;
      modulo := modulo + 8;
      localSum := Wrap64(localSum + x);
      iters := iters - 1;
      n := n + 1;
    }
  }

  lemma InWords(p: int, m: int)
    requires TermFits(p, m)
    ensures 0 <= p < B64 && 0 < m < B64
  {}

  // Adding a word to a sum that is kept modulo 2^64.
  lemma AddWord(sum: u64, exact: int, x: u64)
    requires sum == exact % B64
    ensures Wrap64(sum + x) == (exact + x) % B64
  {
    ModIdempotent(exact);
    AddCong(sum, exact, x, x);
  }

  method OneTerm(exponent: u64, modulo: u64) returns (x: u64)
    requires TermFits(exponent, modulo)
    ensures x == CodeTerm(exponent, modulo)
  {
    DivisionExactFor(modulo);
    x := ModPow2(exponent, modulo);
    x := Fraction(x, modulo);
    if Lost(exponent, modulo) {
      DivModUnique(0, modulo, 0, 0);
    }
  }

  lemma DivisionExactFor(m: nat)
    requires 0 < m <= B63
    ensures DivExact(m)
  {
    DivModSpec(B128, m);
  }

  method ComputeTail(scalePow: u64, offset: nat) returns (sum: u64)
    requires 0 < offset && offset + 2 * scalePow + 8 < B64
    ensures sum == WholeTail(scalePow, offset) % B64
  {
    hide Tail;
    var numIters := scalePow / 4 + 1;
    var exponent := scalePow - 4 * numIters;
    var modulo := offset + 8 * numIters;
    assert WholeTail(scalePow, offset) == Tail(Pow2(64 + exponent), modulo);
    ShiftedUnit(exponent);
    sum := TailLoop(Shl64(1, 64 + exponent), modulo);
  }

  /** The loop of computeTail, which tests after it advances the divisor. */
  method TailLoop(x0: u64, modulo0: nat) returns (sum: u64)
    requires modulo0 > 0
    ensures sum == Tail(x0, modulo0) % B64
  {
    sum := 0;
    var x, modulo := x0, modulo0;
    ghost var acc := 0;
    while x >= modulo
      invariant 0 <= x < B64 && modulo > 0
      invariant sum == acc % B64 && acc + Tail(x, modulo) == Tail(x0, modulo0)
      decreases x
    {
      TailStep(x, modulo);
      DivNat(x, modulo);
      var f := x / modulo;
      ModIdempotent(acc);
      AddCong(sum, acc, f, f);
      acc := acc + f;
      sum := Wrap64(sum + f);
      x := x / 16;
      modulo := modulo + 8;
    }
  }

  /** An input line of the job. */
  datatype Line = Line(termIdx: nat, digit: nat, scalePow: nat, offset: nat, start: nat, count: nat)

  /** A printed value: a sign character and a hexadecimal magnitude. */
  datatype Printed = Printed(negative: bool, magnitude: u64)

  /** sscanf's %llx reads a leading minus as negation modulo 2^64. */
  function ParseValue(v: Printed): u64 {
    if v.negative then Wrap64(0 - v.magnitude as int) else v.magnitude
  }

  // %d and the parameters of computeTerms are ints.
  const B59: int := 0x800_0000_0000_0000
  const B60: int := 0x1000_0000_0000_0000

  ghost predicate LineFits(line: Line) {
    line.count < INTS && line.digit < B64 && line.scalePow < B64 && line.start < B64 && 0 < line.offset
    && line.offset + 2 * line.scalePow + 8 < B64
    && TermsFit(line.scalePow, line.offset, line.start, line.count)
  }

  /** What a line contributes to the unbounded signed sum. */
  ghost function Contribution(line: Line): int
    requires line.offset > 0
  {
    var sum := if line.start == 0 && line.count == 0
               then WholeTail(line.scalePow, line.offset) - (if line.termIdx == 0 then line.digit else 0)
               else CodeSum(line.scalePow, line.offset, line.start, line.count);
    if line.termIdx == 0 then sum else -sum
  }

  method Mapper(line: Line) returns (out: Printed)
    requires LineFits(line)
    ensures ParseValue(out) == Contribution(line) % B64
  {
    var sum: u64;
    ghost var exact := if line.termIdx == 0 then Contribution(line) else -Contribution(line);
    if line.start == 0 && line.count == 0 {
      sum := ComputeTail(line.scalePow, line.offset);
      // the term that makes up for the truncations
      if line.termIdx == 0 {
        CorrectedTail(sum, exact + line.digit, line.digit);
        sum := Wrap64(sum - line.digit);
      }
    } else {
      sum := ComputeTerms(line.scalePow, line.offset, line.start, line.count);
    }
    out := Printed(line.termIdx != 0, sum);
    ParsedValue(out, exact);
  }

  lemma CorrectedTail(sum: int, exact: int, digit: int)
    requires sum == exact % B64
    ensures Wrap64(sum - digit) == (exact - digit) % B64
  {
    ModIdempotent(exact);
    AddCong(sum, exact, digit, digit);
  }

  lemma ParsedValue(out: Printed, exact: int)
    requires out.magnitude == exact % B64
    ensures ParseValue(out) == (if out.negative then -exact else exact) % B64
  {
    ModIdempotent(exact);
    AddCong(0, 0, out.magnitude, exact);
  }

  // ----- the input lines

  /** The total contribution of a list of lines. */
  ghost function Total(lines: seq<Line>): int
    requires forall l :: l in lines ==> l.offset > 0
  {
    if lines == [] then 0 else Total(lines[..|lines| - 1]) + Contribution(lines[|lines| - 1])
  }

  lemma {:induction false} TotalConcat(a: seq<Line>, b: seq<Line>)
    requires forall l :: l in a ==> l.offset > 0
    requires forall l :: l in b ==> l.offset > 0
    ensures forall l :: l in a + b ==> l.offset > 0
    ensures Total(a + b) == Total(a) + Total(b)
    decreases |b|
  {
    if b == [] {
      assert a + b == a;
    } else {
      var b0 := b[..|b| - 1];
      assert (a + b)[..|a + b| - 1] == a + b0;
      TotalConcat(a, b0);
    }
  }

  lemma TotalAppend(a: seq<Line>, x: Line)
    requires forall l :: l in a ==> l.offset > 0
    requires x.offset > 0
    ensures Total(a + [x]) == Total(a) + Contribution(x)
  {
    assert (a + [x])[..|a|] == a;
  }

  /** The terms of a series fit when the largest of them does. */
  predicate SeriesFits(scalePow: nat, offset: nat) {
    offset + 2 * scalePow + 8 < B64 && 0 < offset && TermsFit(scalePow, offset, 0, Iterations(scalePow))
  }

  function SignedTotal(termIdx: nat, digit: nat, series: int): int {
    if termIdx == 0 then series - digit else -series
  }

  /** printTermChunks: consecutive chunks of the term range, then the (0, 0) line for the tail. */
  method TermChunks(termIdx: nat, digit: nat, scalePow: nat, offset: nat, chunkSize: nat) returns (lines: seq<Line>)
    requires chunkSize > 0 && digit < B64 && offset > 0 && SeriesFits(scalePow, offset)
    requires chunkSize < INTS || Iterations(scalePow) < INTS
    ensures forall l :: l in lines ==> l.offset > 0 && LineFits(l)
    ensures forall l :: l in lines ==> l.count <= chunkSize
    ensures |lines| >= 2
    ensures Wrap64(Total(lines)) == Wrap64(SignedTotal(termIdx, digit, Series(scalePow, offset) - LostSeries(scalePow, offset)))
  {
    NoLinesYet(termIdx, scalePow, offset, chunkSize);
    hide Wrap64, ChunksTo, CodeSum, Total, SignedTotal, Series, LostSeries, LineFits, SeriesFits, Iterations;
    var numIters := Iterations(scalePow);
    lines := [];
    var pos := 0;
    ghost var done := 0;
    while pos < numIters
      invariant done == if pos <= numIters then pos else numIters
      invariant ChunksTo(lines, termIdx, scalePow, offset, chunkSize, done)
      decreases numIters - pos
    {
      var size := if chunkSize < numIters - pos then chunkSize else numIters - pos;
      var line := Line(termIdx, digit, scalePow, offset, pos, size);
      AddChunk(lines, line, chunkSize);
      lines := lines + [line];
      pos := pos + chunkSize;
      done := done + size;
    }
    var last := Line(termIdx, digit, scalePow, offset, 0, 0);
    AddTail(lines, last, chunkSize);
    lines := lines + [last];
  }

  /** The lines so far fit, are no longer than the chunk size, and add up to the first terms of their series. */
  ghost predicate ChunksTo(lines: seq<Line>, termIdx: nat, scalePow: nat, offset: nat, chunkSize: nat, done: nat)
    requires offset > 0
  {
    && (forall l :: l in lines ==> l.offset > 0 && LineFits(l) && l.count <= chunkSize)
    && (done > 0 ==> |lines| >= 1)
    && Total(lines) == SignedSum(termIdx, CodeSum(scalePow, offset, 0, done))
  }

  lemma ChunksMean(lines: seq<Line>, termIdx: nat, scalePow: nat, offset: nat, chunkSize: nat, done: nat)
    requires offset > 0
    ensures ChunksTo(lines, termIdx, scalePow, offset, chunkSize, done) <==>
      && (forall l :: l in lines ==> l.offset > 0 && LineFits(l) && l.count <= chunkSize)
      && (done > 0 ==> |lines| >= 1)
      && Total(lines) == SignedSum(termIdx, CodeSum(scalePow, offset, 0, done))
  {}

  lemma NoLinesYet(termIdx: nat, scalePow: nat, offset: nat, chunkSize: nat)
    requires offset > 0
    ensures ChunksTo([], termIdx, scalePow, offset, chunkSize, 0)
  {}

  lemma ChunkFits(line: Line)
    requires line.digit < B64 && line.count < INTS && SeriesFits(line.scalePow, line.offset)
    requires line.start + line.count <= Iterations(line.scalePow) && line.start < Iterations(line.scalePow)
    ensures LineFits(line)
  {
  }

  function SignedSum(termIdx: nat, sum: int): int {
    if termIdx == 0 then sum else -sum
  }

  lemma ChunkContribution(line: Line)
    requires line.offset > 0 && line.count > 0
    ensures Contribution(line) == SignedSum(line.termIdx, CodeSum(line.scalePow, line.offset, line.start, line.count))
  {
    hide CodeSum, WholeTail;
  }

  lemma TailContribution(line: Line)
    requires line.offset > 0 && line.start == 0 && line.count == 0
    ensures Contribution(line) == SignedTotal(line.termIdx, line.digit, WholeTail(line.scalePow, line.offset))
  {
    hide CodeSum, WholeTail;
  }

  lemma AddSigned(termIdx: nat, digit: nat, a: int, b: int)
    ensures SignedSum(termIdx, a) + SignedSum(termIdx, b) == SignedSum(termIdx, a + b)
    ensures SignedSum(termIdx, a) + SignedTotal(termIdx, digit, b) == SignedTotal(termIdx, digit, a + b)
  {}

  lemma OneMoreLine(lines: seq<Line>, line: Line, chunkSize: nat)
    requires forall l :: l in lines ==> l.offset > 0 && LineFits(l) && l.count <= chunkSize
    requires line.offset > 0 && LineFits(line) && line.count <= chunkSize
    ensures forall l :: l in lines + [line] ==> l.offset > 0 && LineFits(l) && l.count <= chunkSize
    ensures Total(lines + [line]) == Total(lines) + Contribution(line)
  {
    hide LineFits, Total, Contribution;
    TotalAppend(lines, line);
  }

  /** The final (0, 0) line completes the series. */
  lemma AddTail(lines: seq<Line>, last: Line, chunkSize: nat)
    requires last.digit < B64 && SeriesFits(last.scalePow, last.offset) && last.start == 0 && last.count == 0 && last.offset > 0
    requires ChunksTo(lines, last.termIdx, last.scalePow, last.offset, chunkSize, Iterations(last.scalePow))
    ensures forall l :: l in lines + [last] ==> l.offset > 0 && LineFits(l) && l.count <= chunkSize
    ensures |lines + [last]| >= 2
    ensures Wrap64(Total(lines + [last]))
         == Wrap64(SignedTotal(last.termIdx, last.digit, Series(last.scalePow, last.offset) - LostSeries(last.scalePow, last.offset)))
  {
    hide Wrap64, ChunksTo, LineFits, SeriesFits, Iterations, Total, Contribution, CodeSum, WholeTail, Series, LostSeries, SignedSum, SignedTotal;
    ChunksMean(lines, last.termIdx, last.scalePow, last.offset, chunkSize, Iterations(last.scalePow));
    ChunkFits(last);
    OneMoreLine(lines, last, chunkSize);
    TailContribution(last);
    AddSigned(last.termIdx, last.digit, CodeSum(last.scalePow, last.offset, 0, Iterations(last.scalePow)),
              WholeTail(last.scalePow, last.offset));
    SignedSeries(last.termIdx, last.scalePow, last.offset, last.digit);
  }

  /** Appending the chunk that starts where the lines so far end. */
  lemma AddChunk(lines: seq<Line>, line: Line, chunkSize: nat)
    requires line.digit < B64 && 0 < line.count < INTS && line.count <= chunkSize && line.offset > 0
    requires SeriesFits(line.scalePow, line.offset) && line.start + line.count <= Iterations(line.scalePow)
    requires ChunksTo(lines, line.termIdx, line.scalePow, line.offset, chunkSize, line.start)
    ensures ChunksTo(lines + [line], line.termIdx, line.scalePow, line.offset, chunkSize, line.start + line.count)
  {
    hide ChunksTo, LineFits, SeriesFits, Iterations, Total, Contribution, CodeSum, SignedSum;
    ChunksMean(lines, line.termIdx, line.scalePow, line.offset, chunkSize, line.start);
    ChunkFits(line);
    OneMoreLine(lines, line, chunkSize);
    ChunkContribution(line);
    AddSigned(line.termIdx, line.digit, CodeSum(line.scalePow, line.offset, 0, line.start),
              CodeSum(line.scalePow, line.offset, line.start, line.count));
    CodeSumSplit(line.scalePow, line.offset, 0, line.start, line.count);
    ChunksMean(lines + [line], line.termIdx, line.scalePow, line.offset, chunkSize, line.start + line.count);
  }

  lemma SignedSeries(termIdx: nat, scalePow: nat, offset: nat, digit: nat)
    requires offset > 0
    ensures Wrap64(SignedTotal(termIdx, digit, CodeSum(scalePow, offset, 0, Iterations(scalePow)) + WholeTail(scalePow, offset)))
         == Wrap64(SignedTotal(termIdx, digit, Series(scalePow, offset) - LostSeries(scalePow, offset)))
  {
    hide TermSum, CodeSum, LostSum, WholeTail;
    var n := Iterations(scalePow);
    CodeSumIs(scalePow, offset, 0, n);
    var exact := TermSum(scalePow, offset, 0, n) + WholeTail(scalePow, offset);
    var lost := LostSeries(scalePow, offset);
    ModIdempotent(exact);
    AddCong(exact, Series(scalePow, offset), lost + digit, lost + digit);
    AddCong(exact, Series(scalePow, offset), lost, lost);
    AddCong(0, 0, exact - lost, Series(scalePow, offset) - lost);
  }

  /** The four series stay in the range of the 64-bit code exactly for digits below 2^60. */
  lemma DigitFits(digit: nat)
    ensures SeriesFits(digit * 4 + 2, 1) && SeriesFits(digit * 4 + 1, 4) && SeriesFits(digit * 4, 5) && SeriesFits(digit * 4, 6)
      <==> digit < B60
  {
    if digit >= B60 {
      assert !TermFits(digit * 4 + 2 - 4 * digit, 1 + 8 * digit);
    }
  }

  /** main of create_pi_input.py. */
  method CreateInput(digit: nat, chunkSize: nat) returns (lines: seq<Line>)
    requires 0 < chunkSize && digit < B60
    requires chunkSize < INTS || digit + 1 < INTS
    ensures forall l :: l in lines ==> l.offset > 0 && LineFits(l)
    ensures forall l :: l in lines ==> l.count <= chunkSize
    ensures |lines| >= 8
    ensures Total(lines) % B64 == (PiDigits(digit) - LostDigits(digit)) % B64
  {
    hide Series, LostSeries, LineFits, SeriesFits, Iterations, SignedTotal, Total, PiDigits, LostDigits;
    DigitFits(digit);
    TermCount(digit);
    var a := TermChunks(0, digit, digit * 4 + 2, 1, chunkSize);
    var b := TermChunks(1, digit, digit * 4 + 1, 4, chunkSize);
    var c := TermChunks(2, digit, digit * 4, 5, chunkSize);
    var d := TermChunks(3, digit, digit * 4, 6, chunkSize);
    FourTotals(a, b, c, d, digit);
    lines := a + b + c + d;
  }

  lemma TermCount(digit: nat)
    ensures Iterations(digit * 4 + 2) == Iterations(digit * 4 + 1) == Iterations(digit * 4) == digit + 1
  {}

  lemma FourTotals(a: seq<Line>, b: seq<Line>, c: seq<Line>, d: seq<Line>, digit: nat)
    requires forall l :: l in a ==> l.offset > 0
    requires forall l :: l in b ==> l.offset > 0
    requires forall l :: l in c ==> l.offset > 0
    requires forall l :: l in d ==> l.offset > 0
    requires Wrap64(Total(a)) == Wrap64(SignedTotal(0, digit, Series(digit * 4 + 2, 1) - LostSeries(digit * 4 + 2, 1)))
    requires Wrap64(Total(b)) == Wrap64(SignedTotal(1, digit, Series(digit * 4 + 1, 4) - LostSeries(digit * 4 + 1, 4)))
    requires Wrap64(Total(c)) == Wrap64(SignedTotal(2, digit, Series(digit * 4, 5) - LostSeries(digit * 4, 5)))
    requires Wrap64(Total(d)) == Wrap64(SignedTotal(3, digit, Series(digit * 4, 6) - LostSeries(digit * 4, 6)))
    ensures forall l :: l in a + b + c + d ==> l.offset > 0
    ensures Wrap64(Total(a + b + c + d)) == Wrap64(PiDigits(digit) - LostDigits(digit))
  {
    hide Wrap64, Series, LostSeries, Total, PiDigits, LostDigits, SignedTotal;
    FourLists(a, b, c, d);
    FourSeries(Total(a), Total(b), Total(c), Total(d),
               Series(digit * 4 + 2, 1) - LostSeries(digit * 4 + 2, 1), Series(digit * 4 + 1, 4) - LostSeries(digit * 4 + 1, 4),
               Series(digit * 4, 5) - LostSeries(digit * 4, 5), Series(digit * 4, 6) - LostSeries(digit * 4, 6), digit);
    DigitsLess(digit);
  }

  lemma FourLists(a: seq<Line>, b: seq<Line>, c: seq<Line>, d: seq<Line>)
    requires forall l :: l in a ==> l.offset > 0
    requires forall l :: l in b ==> l.offset > 0
    requires forall l :: l in c ==> l.offset > 0
    requires forall l :: l in d ==> l.offset > 0
    ensures forall l :: l in a + b + c + d ==> l.offset > 0
    ensures Total(a + b + c + d) == Total(a) + Total(b) + Total(c) + Total(d)
  {
    hide Total;
    TotalConcat(a, b);
    TotalConcat(a + b, c);
    TotalConcat(a + b + c, d);
  }

  lemma FourSeries(a: int, b: int, c: int, d: int, s1: int, s4: int, s5: int, s6: int, digit: nat)
    requires Wrap64(a) == Wrap64(SignedTotal(0, digit, s1)) && Wrap64(b) == Wrap64(SignedTotal(1, digit, s4))
    requires Wrap64(c) == Wrap64(SignedTotal(2, digit, s5)) && Wrap64(d) == Wrap64(SignedTotal(3, digit, s6))
    ensures Wrap64(a + b + c + d) == Wrap64(s1 - s4 - s5 - s6 - digit)
  {
    AddCong(a, s1 - digit, b, -s4);
    AddCong(a + b, s1 - digit - s4, c, -s5);
    AddCong(a + b + c, s1 - digit - s4 - s5, d, -s6);
  }

  lemma DigitsLess(digit: nat)
    ensures Wrap64(PiDigits(digit) - LostDigits(digit))
         == Wrap64(Series(digit * 4 + 2, 1) - LostSeries(digit * 4 + 2, 1) - (Series(digit * 4 + 1, 4) - LostSeries(digit * 4 + 1, 4))
                   - (Series(digit * 4, 5) - LostSeries(digit * 4, 5)) - (Series(digit * 4, 6) - LostSeries(digit * 4, 6)) - digit)
  {
    hide Series, LostSeries;
    var exact := Series(digit * 4 + 2, 1) - Series(digit * 4 + 1, 4) - Series(digit * 4, 5) - Series(digit * 4, 6) - digit;
    ModIdempotent(exact);
    AddCong(exact, PiDigits(digit), LostDigits(digit), LostDigits(digit));
  }

  // ----- the reducer

  /** The reducer adds two parsed values with wrap-around and prints the sum without a sign. */
  function Reducer(v1: Printed, v2: Printed): Printed {
    Printed(false, Wrap64(ParseValue(v1) + ParseValue(v2)))
  }

  ghost function ParsedSum(outs: seq<Printed>): int {
    if outs == [] then 0 else ParsedSum(outs[..|outs| - 1]) + ParseValue(outs[|outs| - 1])
  }

  lemma {:induction false} ParsedSumConcat(a: seq<Printed>, b: seq<Printed>)
    ensures ParsedSum(a + b) == ParsedSum(a) + ParsedSum(b)
    decreases |b|
  {
    if b == [] {
      assert a + b == a;
    } else {
      assert (a + b)[..|a + b| - 1] == a + b[..|b| - 1];
      ParsedSumConcat(a, b[..|b| - 1]);
    }
  }

  /** The sum does not depend on the order in which the mapper outputs arrive. */
  lemma {:induction false} AnyOrder(a: seq<Printed>, b: seq<Printed>)
    requires multiset(a) == multiset(b)
    ensures ParsedSum(a) == ParsedSum(b)
    decreases |a|
  {
    Seqs.SameSize(a, b);
    if a != [] {
      var x, a0 := a[|a| - 1], a[..|a| - 1];
      assert a == a0 + [x];
      assert x in multiset(b);
      var i :| 0 <= i < |b| && b[i] == x;
      Seqs.RemoveOne(a0, x, b, i);
      AnyOrder(a0, b[..i] + b[i + 1..]);
      SumWithout(b, i);
    }
  }

  lemma SumWithout(b: seq<Printed>, i: nat)
    requires i < |b|
    ensures ParsedSum(b) == ParsedSum(b[..i] + b[i + 1..]) + ParseValue(b[i])
  {
    hide ParseValue, ParsedSum;
    var b1, b2 := b[..i], b[i + 1..];
    assert b == b1 + [b[i]] + b2;
    ParsedSumConcat(b1, b2);
    ParsedSumConcat(b1 + [b[i]], b2);
    ParsedSumConcat(b1, [b[i]]);
    ParsedSumOne(b[i]);
  }

  lemma ParsedSumOne(x: Printed)
    ensures ParsedSum([x]) == ParseValue(x)
  {
    assert [x][..0] == [];
  }

  /** The reducer loop on one key: the first value is stored as it came, later ones are folded in. */
  method ReduceAll(outs: seq<Printed>) returns (r: Printed)
    requires |outs| > 0
    ensures ParseValue(r) == ParsedSum(outs) % B64
    ensures |outs| > 1 ==> !r.negative
  {
    r := outs[0];
    assert ParsedSum(outs[..1]) == ParseValue(outs[0]) by { assert outs[..1][..0] == []; }
    var i := 1;
    while i < |outs|
      invariant 1 <= i <= |outs|
      invariant ParseValue(r) == ParsedSum(outs[..i]) % B64
      invariant i > 1 ==> !r.negative
    {
      assert outs[..i + 1][..i] == outs[..i];
      ModIdempotent(ParsedSum(outs[..i]));
      AddCong(ParseValue(r), ParsedSum(outs[..i]), ParseValue(outs[i]), ParseValue(outs[i]));
      r := Reducer(r, outs[i]);
      i := i + 1;
    }
    assert outs[..|outs|] == outs;
  }

  /** One mapper call per line. */
  method MapAll(lines: seq<Line>) returns (outs: seq<Printed>)
    requires forall l :: l in lines ==> l.offset > 0 && LineFits(l)
    ensures |outs| == |lines| && ParsedSum(outs) % B64 == Total(lines) % B64
  {
    outs := [];
    var i := 0;
    while i < |lines|
      invariant 0 <= i <= |lines| && |outs| == i
      invariant ParsedSum(outs) % B64 == Total(lines[..i]) % B64
    {
      assert lines[..i + 1][..i] == lines[..i];
      var out := Mapper(lines[i]);
      assert (outs + [out])[..|outs|] == outs;
      ModIdempotent(Contribution(lines[i]));
      AddCong(ParsedSum(outs), Total(lines[..i]), ParseValue(out), Contribution(lines[i]));
      outs := outs + [out];
      i := i + 1;
    }
    assert lines[..|lines|] == lines;
  }

  // ----- the terms that modPow2 loses

  ghost predicate Lossless(scalePow: int, offset: int, n: nat) {
    forall i :: 0 <= i < n ==> !LosesAt(scalePow, offset, i)
  }

  lemma {:induction false} NoneLost(scalePow: int, offset: int, n: nat)
    requires Lossless(scalePow, offset, n)
    ensures LostSum(scalePow, offset, 0, n) == 0
  {
    hide Lost, Term;
    if n > 0 {
      assert !LosesAt(scalePow, offset, n - 1);
      NoneLost(scalePow, offset, n - 1);
    }
  }

  /** The terms that are lost: those from index 2^59 on, except the last of the third series. */
  lemma LosesFrom(digit: nat, i: int)
    requires 0 <= i <= digit
    ensures LosesAt(digit * 4 + 2, 1, i) <==> i >= B59
    ensures LosesAt(digit * 4, 5, i) <==> B59 <= i < digit
  {
    assert (1 + 8 * i) % 2 == 1 && (5 + 8 * i) % 2 == 1;
  }

  /** A digit loses no term exactly when it is below 2^59. */
  lemma LosesNoTerm(digit: nat)
    ensures Lossless(digit * 4 + 2, 1, digit + 1) && Lossless(digit * 4, 5, digit + 1) <==> digit < B59
  {
    hide LosesAt;
    if digit < B59 {
      LosslessBelow(digit * 4 + 2, 1, digit + 1);
      LosslessBelow(digit * 4, 5, digit + 1);
    } else {
      LosesFrom(digit, digit);
      LosesSome(digit * 4 + 2, 1, digit);
    }
  }

  lemma LosslessBelow(scalePow: int, offset: int, n: nat)
    requires n <= B59 && offset <= 8
    ensures Lossless(scalePow, offset, n)
  {}

  lemma LosesSome(scalePow: int, offset: int, i: nat)
    requires LosesAt(scalePow, offset, i)
    ensures !Lossless(scalePow, offset, i + 1)
  {}

  /** Only the first and the third series have odd moduli; below 2^59 neither loses anything. */
  lemma LostBySeries(digit: nat)
    ensures LostDigits(digit) == LostSeries(digit * 4 + 2, 1) - LostSeries(digit * 4, 5)
    ensures digit < B59 ==> LostDigits(digit) == 0
  {
    TermCount(digit);
    hide Iterations, LostSum, Lossless, LosesAt, CodeTerm;
    EvenSeries(digit * 4 + 1, 4, digit + 1);
    EvenSeries(digit * 4, 6, digit + 1);
    if digit < B59 {
      LosesNoTerm(digit);
      NoneLost(digit * 4 + 2, 1, digit + 1);
      NoneLost(digit * 4, 5, digit + 1);
    }
  }

  lemma EvenSeries(scalePow: int, offset: int, n: nat)
    requires offset % 2 == 0
    ensures LostSum(scalePow, offset, 0, n) == 0
  {
    assert Lossless(scalePow, offset, n);
    NoneLost(scalePow, offset, n);
  }

  lemma OneMoreTerm(scalePow: int, offset: int, n: nat)
    ensures LostSum(scalePow, offset, 0, n + 1)
         == LostSum(scalePow, offset, 0, n) + if LosesAt(scalePow, offset, n) then Term(scalePow - 4 * n, offset + 8 * n) else 0
  {
    hide Term, Lost;
  }

  /** A lost term with a small exponent: its modulus is 2^62 and a little. */
  lemma LostTerm(p: nat, e: nat)
    requires e > 0 && Pow2(p + 2) * e <= B62
    ensures Term(p, B62 + e) == Pow2(p + 2) - 1
  {
    var x, m := Pow2(p), B62 + e;
    assert Pow2(p + 2) == 4 * x;
    SmallPower(x, e);
    DivModUnique(x, m, 0, x);
    assert x * B64 == m * (4 * x - 1) + (m - (4 * x) * e) by {
      assert m * (4 * x) == B62 * (4 * x) + e * (4 * x);
    }
    DivModUnique(x * B64, m, 4 * x - 1, m - (4 * x) * e);
    DivModUnique(4 * x - 1, B64, 0, 4 * x - 1);
  }

  lemma SmallPower(x: nat, e: nat)
    requires e > 0 && 4 * x * e <= B62
    ensures 4 * x <= B62 && (4 * x) * e == 4 * x * e
  {
    MulMonotone(4 * x, 1, e);
  }

  lemma {:induction false} LittleNext(k: nat)
    ensures 1 + 8 * k <= 4 * Pow2(4 * k) && 5 + 8 * k <= 16 * Pow2(4 * k)
  {
    if k > 0 {
      LittleNext(k - 1);
      Sixteen(k - 1);
    }
  }

  lemma Sixteen(n: nat)
    ensures Pow2(4 * (n + 1)) == 16 * Pow2(4 * n)
  {
    Pow2Add(4, 4 * n);
    assert Pow2(4) == 16;
  }

  /** The moduli of the k-th lost terms are little enough above 2^62 for the exponents that remain. */
  lemma LittleAbove(k: nat, n: nat)
    requires n + k <= 14
    ensures Pow2(4 * n + 4) * (1 + 8 * k) <= B62 && Pow2(4 * n + 2) * (5 + 8 * k) <= B62
  {
    LittleNext(k);
    Pow2Add(4 * n + 4, 4 * k);
    Pow2Add(4 * n + 2, 4 * k);
    Pow2Monotone(4 * n + 4 + 4 * k, 60);
    Pow2Monotone(4 * n + 2 + 4 * k, 58);
    PowersUpTo62();
    Traded(Pow2(4 * n + 4), 1 + 8 * k, 4, Pow2(4 * k), Pow2(60));
    Traded(Pow2(4 * n + 2), 5 + 8 * k, 16, Pow2(4 * k), Pow2(58));
  }

  lemma Traded(x: nat, a: nat, s: nat, y: nat, b: nat)
    requires a <= s * y && x * y <= b
    ensures x * a <= s * b
  {
    MulMonotone(x, a, s * y);
    assert x * (s * y) == s * (x * y);
    MulMonotone(s, x * y, b);
  }

  lemma PowersUpTo62()
    ensures 4 * Pow2(60) == B62 && 16 * Pow2(58) == B62
  {
    assert Pow2(7) == 128;
    Pow2Square(7, 128);
    assert Pow2(15) == 2 * Pow2(14);
    Pow2Square(15, 0x8000);
    assert Pow2(30) == 2 * Pow2(29);
    Pow2Square(30, 0x4000_0000);
    Pow2Square(29, 0x2000_0000);
  }

  /** What the first series has lost after c terms from index 2^59 on, for the digit j places further. */
  lemma {:induction false} LostFirst(j: nat, c: nat)
    requires c <= j + 1 <= 15
    ensures 15 * (LostSum((B59 + j) * 4 + 2, 1, 0, B59 + c) + c) == Pow2(4 * (j + 2)) - Pow2(4 * (j + 2 - c))
  {
    var scalePow := (B59 + j) * 4 + 2;
    hide LostSum, Term, LosesAt;
    if c == 0 {
      LosslessBelow(scalePow, 1, B59);
      NoneLost(scalePow, 1, B59);
    } else {
      LostFirst(j, c - 1);
      OneMoreTerm(scalePow, 1, B59 + c - 1);
      LosesFrom(B59 + j, B59 + c - 1);
      LittleAbove(c - 1, j + 1 - c);
      LostTerm(4 * (j + 1 - c) + 2, 1 + 8 * (c - 1));
      Sixteen(j + 2 - c);
    }
  }

  lemma {:induction false} LostThird(j: nat, c: nat)
    requires c <= j <= 14
    ensures 15 * (LostSum((B59 + j) * 4, 5, 0, B59 + c) + c) == 4 * (Pow2(4 * (j + 1)) - Pow2(4 * (j + 1 - c)))
  {
    var scalePow := (B59 + j) * 4;
    hide LostSum, Term, LosesAt;
    if c == 0 {
      LosslessBelow(scalePow, 5, B59);
      NoneLost(scalePow, 5, B59);
    } else {
      LostThird(j, c - 1);
      OneMoreTerm(scalePow, 5, B59 + c - 1);
      LosesFrom(B59 + j, B59 + c - 1);
      LittleAbove(c - 1, j + 1 - c);
      LostTerm(4 * (j + 1 - c), 5 + 8 * (c - 1));
      Pow2Add(2, 4 * (j + 1 - c));
      Sixteen(j + 1 - c);
    }
  }

  /** From 2^59 on the lost terms have a closed form, while 2^(p + 64) / (2^62 + e) is just short of 2^(p + 2). */
  lemma FirstLosses(j: nat)
    requires j <= 14
    ensures 5 * LostDigits(B59 + j) == 4 * Pow2(4 * (j + 1)) + 11 && 0 < LostDigits(B59 + j) < B64
  {
    hide LostSum, Term, LosesAt, Iterations, LostDigits;
    var digit := B59 + j;
    TermCount(digit);
    LostBySeries(digit);
    LostFirst(j, j + 1);
    LostThird(j, j);
    OneMoreTerm(digit * 4, 5, digit);
    LosesFrom(digit, digit);
    Sixteen(0);
    Sixteen(j + 1);
    Pow2Monotone(4 * (j + 1), 60);
    PowersUpTo62();
  }

  lemma PiDigitsWord(digit: nat)
    ensures 0 <= PiDigits(digit) < B64
  {
    hide Series;
  }

  lemma DiffersBy(reference: int, lost: int)
    requires 0 <= reference < B64
    ensures (reference - lost) % B64 == reference <==> lost % B64 == 0
  {
    DivModSpec(lost, B64);
    DivModSpec(reference - lost, B64);
  }

  /**
   * The whole job, with the mapper outputs reaching the reducer in an arbitrary order, against the sequential
   * reference: it falls short by the terms modPow2 loses, modulo 2^64, and below 2^59 it loses none.
   */
  method PiJob(digit: nat, chunkSize: nat) returns (result: u64, reference: int)
    requires 0 < chunkSize && digit < B60
    requires chunkSize < INTS || digit + 1 < INTS
    ensures reference == PiDigits(digit) && result == (reference - LostDigits(digit)) % B64
    ensures result == reference <==> LostDigits(digit) % B64 == 0
    ensures digit < B59 ==> result == reference
  {
    hide LostDigits, Total, PiDigits, LineFits, ParsedSum;
    PiDigitsWord(digit);
    var lines := CreateInput(digit, chunkSize);
    var outs := MapAll(lines);
    var arrived: seq<Printed> :| multiset(arrived) == multiset(outs);
    Seqs.SameSize(arrived, outs);
    AnyOrder(arrived, outs);
    var sum := ReduceAll(arrived);
    assert ParseValue(sum) == sum.magnitude;
    result := sum.magnitude;
    reference := PlouffeInt(digit);
    LostBySeries(digit);
    DiffersBy(reference, LostDigits(digit));
  }

  /** The first digits from 2^59 on come out wrong, whatever the chunks and the order of arrival; 2^59 is 15 short. */
  method FirstWrongDigits(j: nat, chunkSize: nat) returns (result: u64, reference: int)
    requires j <= 14 && 0 < chunkSize < INTS
    ensures reference == PiDigits(B59 + j) && result != reference
    ensures result == (reference - (4 * Pow2(4 * (j + 1)) + 11) / 5) % B64
    ensures j == 0 ==> result == (reference - 15) % B64
  {
    hide LostDigits, PiDigits;
    FirstLosses(j);
    result, reference := PiJob(B59 + j, chunkSize);
    DivModUnique(LostDigits(B59 + j), B64, 0, LostDigits(B59 + j));
    if j == 0 { Sixteen(0); }
  }
}
