/**
 * mapreduce/splitter.c: cutting a file into `count` portions at line boundaries.
 * Offsets are size_t, so products are taken modulo 2^64.
 */
module Splitter {
  import opened Basics
  import opened Bits
  import opened TextLines

  // ---- Line 99-115 -------------------------------------------------------------------------

  function Scaled(product: nat, count: nat): nat
    requires count > 0
  {
    product % SIZES / count
  }

  function Offset(length: nat, count: nat, i: nat): nat
    requires count > 0
  {
    Scaled(length * i, count)
  }

  /** Wrapped or not, an offset lies in the file: the comparison with the length never acts. */
  lemma OffsetAtMost(length: nat, count: nat, i: nat)
    requires count > 0 && i <= count
    ensures Offset(length, count, i) <= length
    ensures i < count && length > 0 ==> Offset(length, count, i) < length
  {
    WrapAtMost(length * i);
    MulMonotone(length, i, count);
    DivBelow(length * i % SIZES, count, length + 1);
    if i < count && length > 0 {
      MulMonotone(length, i, count - 1);
      DivBelow(length * i % SIZES, count, length);
    }
  }

  lemma WrapAtMost(product: nat)
    ensures product % SIZES <= product
    ensures product < SIZES ==> product % SIZES == product
    ensures product >= SIZES ==> product % SIZES <= product - SIZES
    ensures SIZES <= product < 2 * SIZES ==> product % SIZES == product - SIZES
  {
    DivModSpec(product, SIZES);
  }

  /** The range is inside the file, and is the idx-th of count equal ones as long as the products do not wrap. */
  method GetSubrange(length: nat, count: nat, idx: nat) returns (startOffset: nat, endOffset: nat)
    requires idx < count
    ensures startOffset == Offset(length, count, idx) && endOffset == Offset(length, count, idx + 1)
    ensures startOffset <= length && endOffset <= length
    ensures length * (idx + 1) < SIZES ==>
      startOffset == length * idx / count && endOffset == length * (idx + 1) / count && startOffset <= endOffset
  {
    OffsetAtMost(length, count, idx);
    OffsetAtMost(length, count, idx + 1);
    SubrangeExact(length, count, idx);
    hide Offset;
    startOffset := Offset(length, count, idx);
    endOffset := Offset(length, count, idx + 1);
    if endOffset > length {
      endOffset := length;
    }
  }

  lemma SubrangeExact(length: nat, count: nat, idx: nat)
    requires idx < count
    ensures length * (idx + 1) < SIZES ==>
      Offset(length, count, idx) == length * idx / count && Offset(length, count, idx + 1) == length * (idx + 1) / count
      && Offset(length, count, idx) <= Offset(length, count, idx + 1)
  {
    MulMonotone(length, idx, idx + 1);
    WrapAtMost(length * idx);
    WrapAtMost(length * (idx + 1));
    DivMonotone(length * idx, length * (idx + 1), count);
  }

  /** The position just after the first newline at or after p, or the end. */
  function NextLine(data: string, p: nat): (q: nat)
    requires p <= |data|
    ensures p <= q <= |data|
    ensures q == |data| || (q > p && data[q - 1] == '\n')
    ensures '\n' !in data[p..q] || (q > p && data[q - 1] == '\n' && '\n' !in data[p..q - 1])
    decreases |data| - p
  {
    if p == |data| then p
    else if data[p] == '\n' then p + 1
    else
      assert data[p..] == [data[p]] + data[p + 1..];
      var q := NextLine(data, p + 1);
      assert data[p..q] == [data[p]] + data[p + 1..q];
      assert q > p + 1 ==> data[p..q - 1] == [data[p]] + data[p + 1..q - 1];
      q
  }

  method FindNextLine(data: string, start: nat, end: nat) returns (p: nat)
    requires start <= end == |data|
    ensures p == NextLine(data, start)
  {
    p := start;
    while p < end
      invariant start <= p <= end
      invariant NextLine(data, start) == NextLine(data, p)
    {
      if data[p] == '\n' { return p + 1; }
      p := p + 1;
    }
    return end;
  }

  // ---- Lines 117-153 ------------------------------------------------------------------------

  /** Where portion i starts, and portion i - 1 ends. */
  function Cut(data: string, count: nat, i: nat): (c: nat)
    requires count > 0 && i <= count
    ensures c <= |data|
  {
    if i == 0 then 0
    else if i == count then |data|
    else
      OffsetAtMost(|data|, count, i);
      NextLine(data, Offset(|data|, count, i))
  }

  function Portion(data: string, count: nat, i: nat): string
    requires i < count
  {
    var s, e := Cut(data, count, i), Cut(data, count, i + 1);
    if e > s then data[s..e] else ""
  }

  // The products taken for the cuts do not wrap.
  predicate Fits(length: nat, count: nat) {
    count > 0 && length * (count - 1) < SIZES
  }

  method WritePortion(data: string, count: nat, index: nat) returns (written: string)
    requires index < count
    ensures written == Portion(data, count, index)
  {
    var startOffset, endOffset := GetSubrange(|data|, count, index);
    var startPtr, endPtr;
    if index == 0 {
      startPtr := 0;
    } else {
      startPtr := FindNextLine(data, startOffset, |data|);
    }
    if index == count - 1 {
      endPtr := |data|;
    } else {
      endPtr := FindNextLine(data, endOffset, |data|);
    }
    written := "";
    if endPtr > startPtr {
      written := data[startPtr..endPtr];
    }
  }

  lemma TrueOffset(length: nat, count: nat, i: nat)
    requires i < count && Fits(length, count)
    ensures Offset(length, count, i) == length * i / count
  {
    MulMonotone(length, i, count - 1);
    WrapAtMost(length * i);
  }

  /** The offsets of all indices are the true quotients exactly when the largest product does not wrap. */
  lemma OffsetsExact(length: nat, count: nat)
    requires 0 < count < SIZES
    ensures (forall i :: 0 <= i < count ==> Offset(length, count, i) == length * i / count) <==> Fits(length, count)
  {
    if Fits(length, count) {
      forall i | 0 <= i < count ensures Offset(length, count, i) == length * i / count {
        TrueOffset(length, count, i);
      }
    } else {
      var i := count - 1;
      WrappedIsLess(length * i, count);
      assert Offset(length, count, i) < length * i / count;
    }
  }

  lemma WrappedIsLess(product: nat, count: nat)
    requires 0 < count < SIZES <= product
    ensures Scaled(product, count) < product / count
  {
    WrapAtMost(product);
    DivGap(product % SIZES, product, count);
  }

  lemma DivGap(a: nat, b: nat, m: nat)
    requires m > 0 && a + m <= b
    ensures a / m + 1 <= b / m
  {
    DivModSpec(b, m);
    assert m * (b / m + 1) == m * (b / m) + m;
    DivBelow(a, m, b / m);
  }

  // ---- The portions make up the file -----------------------------------------------------------

  lemma NextLineMonotone(data: string, p: nat, q: nat)
    requires p <= q <= |data|
    ensures NextLine(data, p) <= NextLine(data, q)
  {
    // a newline just before b would lie in data[p..a - 1]
    var a, b := NextLine(data, p), NextLine(data, q);
    hide NextLine;
    assert forall k :: p <= k && k + 1 < a ==> data[k] in data[p..a - 1];
  }

  lemma OffsetMonotone(length: nat, count: nat, i: nat)
    requires Fits(length, count) && i + 1 < count
    ensures Offset(length, count, i) <= Offset(length, count, i + 1)
  {
    TrueOffset(length, count, i);
    TrueOffset(length, count, i + 1);
    hide Offset, Fits;
    MulMonotone(length, i, i + 1);
    DivMonotone(length * i, length * (i + 1), count);
  }

  lemma CutMonotone(data: string, count: nat, i: nat)
    requires Fits(|data|, count) && i < count
    ensures Cut(data, count, i) <= Cut(data, count, i + 1)
  {
    if 0 < i && i + 1 < count {
      OffsetMonotone(|data|, count, i);
      hide Offset, NextLine, Fits;
      OffsetAtMost(|data|, count, i + 1);
      NextLineMonotone(data, Offset(|data|, count, i), Offset(|data|, count, i + 1));
    }
  }

  function Portions(data: string, count: nat, k: nat): seq<string>
    requires k <= count
  {
    if k == 0 then [] else Portions(data, count, k - 1) + [Portion(data, count, k - 1)]
  }

  lemma NoCut(data: string, count: nat)
    requires count > 0
    ensures Cut(data, count, 0) == 0 && Cut(data, count, count) == |data|
  {}

  /** The first k portions, one after the other, are the file up to the k-th cut. */
  lemma {:induction false} PortionsPrefix(data: string, count: nat, k: nat)
    requires Fits(|data|, count) && k <= count
    ensures Concat(Portions(data, count, k)) == data[..Cut(data, count, k)]
  {
    hide Cut;
    if k > 0 {
      PortionsPrefix(data, count, k - 1);
      CutMonotone(data, count, k - 1);
      ConcatAppend(Portions(data, count, k - 1), Portion(data, count, k - 1));
      var s, e := Cut(data, count, k - 1), Cut(data, count, k);
      assert data[..s] + data[s..e] == data[..e];
    } else {
      NoCut(data, count);
    }
  }

  /** While the products do not wrap, the portions in order are exactly the file. */
  lemma PortionsAreTheFile(data: string, count: nat)
    requires Fits(|data|, count)
    ensures Concat(Portions(data, count, count)) == data
  {
    PortionsPrefix(data, count, count);
    NoCut(data, count);
    assert data[..|data|] == data;
  }

  /** The last index whose product does not wrap, when some product does. */
  lemma FirstWrap(length: nat, j: nat) returns (i: nat)
    requires length * j >= SIZES
    ensures i < j && length * i < SIZES <= length * (i + 1)
  {
    if length * (j - 1) < SIZES {
      i := j - 1;
    } else {
      i := FirstWrap(length, j - 1);
    }
  }

  /** The offset at the first index that wraps falls behind the one before it. */
  lemma OffsetFallsBack(length: nat, count: nat, i: nat)
    requires 0 < i && i + 1 < count < INTS && length < SIZES / 2
    requires length * i < SIZES <= length * (i + 1)
    ensures Offset(length, count, i + 1) < Offset(length, count, i) < length
  {
    assert length * (i + 1) == length * i + length;
    WrapAtMost(length * i);
    WrapAtMost(length * (i + 1));
    DivGap(length * (i + 1) - SIZES, length * i, count);
    OffsetAtMost(length, count, i);
  }

  // So does the cut, when every byte is a newline.
  lemma CutFallsBack(data: string, count: nat, i: nat)
    requires 0 < i && i + 1 < count < INTS && |data| < SIZES / 2
    requires |data| * i < SIZES <= |data| * (i + 1)
    requires forall k :: 0 <= k < |data| ==> data[k] == '\n'
    ensures Cut(data, count, i + 1) < Cut(data, count, i)
  {
    OffsetFallsBack(|data|, count, i);
    OffsetAtMost(|data|, count, i + 1);
    hide Offset;
    NextAmongNewlines(data, Offset(|data|, count, i));
    NextAmongNewlines(data, Offset(|data|, count, i + 1));
  }

  lemma NextAmongNewlines(data: string, p: nat)
    requires p < |data| && forall k :: 0 <= k < |data| ==> data[k] == '\n'
    ensures NextLine(data, p) == p + 1
  {}

  /** The portions together are at least as long as the last cut, and longer once a cut has fallen back. */
  lemma {:induction false} PortionsLength(data: string, count: nat, k: nat, i: nat)
    requires i + 1 < count && k <= count && Cut(data, count, i + 1) < Cut(data, count, i)
    ensures |Concat(Portions(data, count, k))| >= Cut(data, count, k) + if k > i then 1 else 0
  {
    hide Cut;
    if k == 0 {
      NoCut(data, count);
    } else {
      PortionsLength(data, count, k - 1, i);
      ConcatAppend(Portions(data, count, k - 1), Portion(data, count, k - 1));
    }
  }

  lemma NewlinesNotReassembled(length: nat, count: nat) returns (data: string)
    requires 0 < count < INTS && length < SIZES / 2 && !Fits(length, count)
    ensures |data| == length && Concat(Portions(data, count, count)) != data
  {
    data := seq(length, _ => '\n');
    var i := FirstWrap(length, count - 1);
    assert i > 0;
    CutFallsBack(data, count, i);
    PortionsLength(data, count, count, i);
    NoCut(data, count);
  }

  /**
   * The portions of every file of a length make up the file exactly when
   * length * (count - 1) < 2^64. Lengths are st_size, a signed 64-bit value, and counts are ints.
   */
  lemma PortionsExact(length: nat, count: nat)
    requires 0 < count < INTS && length < SIZES / 2
    ensures (forall data: string :: |data| == length ==> Concat(Portions(data, count, count)) == data)
      <==> Fits(length, count)
  {
    if Fits(length, count) {
      forall data: string | |data| == length ensures Concat(Portions(data, count, count)) == data {
        PortionsAreTheFile(data, count);
      }
    } else {
      var data := NewlinesNotReassembled(length, count);
    }
  }

  /** A cut is at the start of a line or at the end of the file. */
  lemma CutsAtLines(data: string, count: nat, i: nat)
    requires i <= count && count > 0
    ensures var c := Cut(data, count, i); c == 0 || c == |data| || data[c - 1] == '\n'
  {}

  /**
   * A portion other than the last, if not empty, ends with a newline exactly when the file has
   * a newline at or after the portion's nominal end; otherwise it is the rest of the file.
   */
  lemma EndsWithNewline(data: string, count: nat, i: nat, portion: string, nominal: nat)
    requires i + 1 < count
    requires portion == Portion(data, count, i) && portion != "" && nominal == Offset(|data|, count, i + 1)
    ensures nominal <= |data|
    ensures portion[|portion| - 1] == '\n' <==> '\n' in data[nominal..]
    ensures '\n' !in data[nominal..] ==> portion == data[Cut(data, count, i)..]
  {
    OffsetAtMost(|data|, count, i + 1);
    hide NextLine, Scaled, Offset;
    var s, e := Cut(data, count, i), NextLine(data, nominal);
    assert e == Cut(data, count, i + 1);
    hide Cut;
    assert |data| > 0;
    NewlineAfter(data, nominal, e);
    assert portion == data[s..e];
    assert portion[|portion| - 1] == data[e - 1];
  }

  lemma {:induction false} NewlineAfter(data: string, p: nat, e: nat)
    requires p < |data| && e == NextLine(data, p)
    ensures e > p && (data[e - 1] == '\n' <==> '\n' in data[p..])
    ensures '\n' !in data[p..] ==> e == |data|
    decreases |data| - p
  {
    assert data[p..] == [data[p]] + data[p + 1..];
    if data[p] != '\n' && p + 1 < |data| {
      NewlineAfter(data, p + 1, e);
    }
  }

  /** The comment at the head of splitter.c promises a newline at the end of every portion but the last: not so. */
  lemma NewlinePromiseFails()
    ensures Fits(|"abc"|, 2)
    ensures Portion("abc", 2, 0) == "abc"
  {
    assert NextLine("abc", 1) == 3;
  }

  /** The largest file there can be, in four portions: the product wraps and an offset falls behind the one before it. */
  lemma OffsetsWrap()
    ensures !Fits(0x7FFF_FFFF_FFFF_FFFF, 4)
    ensures Offset(0x7FFF_FFFF_FFFF_FFFF, 4, 3) < Offset(0x7FFF_FFFF_FFFF_FFFF, 4, 2)
  {}

  // ---- No line is broken -----------------------------------------------------------------------

  /** The lines of the file are the lines of its portions, in order. */
  lemma {:induction false} LinesOfPortions(data: string, count: nat, k: nat)
    requires Fits(|data|, count) && k <= count
    ensures Lines(data[..Cut(data, count, k)]) == AllLines(Portions(data, count, k))
  {
    hide Cut, Lines;
    if k == 0 {
      NoCut(data, count);
      assert data[..0] == "";
      NoLines();
    } else {
      LinesOfPortions(data, count, k - 1);
      CutMonotone(data, count, k - 1);
      CutsAtLines(data, count, k - 1);
      var s, e := Cut(data, count, k - 1), Cut(data, count, k);
      AllLinesAppend(Portions(data, count, k - 1), Portion(data, count, k - 1));
      assert data[..s] + data[s..e] == data[..e];
      if e == s {
        assert data[s..e] == "";
      }
      LinesJoin(data[..s], data[s..e]);
    }
  }

  lemma PortionsKeepLines(data: string, count: nat)
    requires Fits(|data|, count)
    ensures AllLines(Portions(data, count, count)) == Lines(data)
  {
    LinesOfPortions(data, count, count);
    NoCut(data, count);
    assert data[..|data|] == data;
  }
}
