/** What several modules need of sequences: distinctness, sums over the elements, and reorderings. */
module Seqs {

  ghost predicate Distinct<T>(s: seq<T>) {
    forall i, j :: 0 <= i < j < |s| ==> s[i] != s[j]
  }

  function Elements<T>(s: seq<T>): set<T> {
    set x | x in s
  }

  function Map<T>(f: T -> T, s: seq<T>): (t: seq<T>)
    ensures |t| == |s| && forall i :: 0 <= i < |s| ==> t[i] == f(s[i])
  {
    seq(|s|, i requires 0 <= i < |s| => f(s[i]))
  }

  function Sum<T>(s: seq<T>, f: T -> nat): nat {
    if s == [] then 0 else f(s[0]) + Sum(s[1..], f)
  }

  lemma {:induction false} SumUpdate<T>(s: seq<T>, i: nat, x: T, f: T -> nat)
    requires i < |s|
    ensures Sum(s[i := x], f) + f(s[i]) == Sum(s, f) + f(x)
  {
    if i > 0 {
      assert s[i := x][1..] == s[1..][i - 1 := x];
      SumUpdate(s[1..], i - 1, x, f);
    }
  }

  /** When no element contributes more than k more than before, the sum grows by at most k for each. */
  lemma {:induction false} SumGrowth<T>(s: seq<T>, t: seq<T>, f: T -> nat, k: nat)
    requires |s| == |t| && forall i :: 0 <= i < |s| ==> f(t[i]) <= f(s[i]) + k
    ensures Sum(t, f) <= Sum(s, f) + k * |s|
  {
    if s != [] {
      assert forall i :: 0 <= i < |s[1..]| ==> s[1..][i] == s[i + 1] && t[1..][i] == t[i + 1];
      SumGrowth(s[1..], t[1..], f, k);
      assert k * |s| == k * |s[1..]| + k;
    }
  }

  lemma {:induction false} SumZero<T>(s: seq<T>, f: T -> nat)
    ensures Sum(s, f) == 0 <==> forall i :: 0 <= i < |s| ==> f(s[i]) == 0
  {
    if s != [] {
      SumZero(s[1..], f);
      assert forall i :: 0 < i < |s| ==> s[i] == s[1..][i - 1];
    }
  }

  function Indicator<T>(p: T -> bool): T -> nat {
    x => if p(x) then 1 else 0
  }

  /** How many elements satisfy p. */
  function Count<T>(s: seq<T>, p: T -> bool): nat {
    Sum(s, Indicator(p))
  }

  lemma CountUpdate<T>(s: seq<T>, i: nat, x: T, p: T -> bool)
    requires i < |s|
    ensures Count(s[i := x], p) + (if p(s[i]) then 1 else 0) == Count(s, p) + (if p(x) then 1 else 0)
  {
    hide Sum;
    SumUpdate(s, i, x, Indicator(p));
  }

  lemma CountSame<T>(s: seq<T>, t: seq<T>, p: T -> bool)
    requires |s| == |t| && forall i :: 0 <= i < |s| ==> (p(t[i]) <==> p(s[i]))
    ensures Count(t, p) == Count(s, p)
  {
    hide Sum;
    SumGrowth(s, t, Indicator(p), 0);
    SumGrowth(t, s, Indicator(p), 0);
  }

  lemma CountZero<T>(s: seq<T>, p: T -> bool)
    ensures Count(s, p) == 0 <==> forall i :: 0 <= i < |s| ==> !p(s[i])
  {
    hide Sum;
    SumZero(s, Indicator(p));
  }

  /** Two orderings of the same elements: taking the same element out of both leaves two orderings again. */
  lemma RemoveOne<T>(a0: seq<T>, x: T, b: seq<T>, i: nat)
    requires i < |b| && b[i] == x
    requires multiset(a0 + [x]) == multiset(b)
    ensures multiset(a0) == multiset(b[..i] + b[i + 1..])
  {
    var b1, b2 := b[..i], b[i + 1..];
    assert b == b1 + [x] + b2;
    assert multiset(a0 + [x]) == multiset(a0) + multiset{x};
    assert multiset(b) == multiset(b1) + multiset{x} + multiset(b2);
    assert multiset(a0) == multiset(a0 + [x]) - multiset{x};
    assert multiset(b1 + b2) == multiset(b) - multiset{x};
  }

  lemma SameSize<T>(a: seq<T>, b: seq<T>)
    requires multiset(a) == multiset(b)
    ensures |a| == |b|
  {
    assert |multiset(a)| == |a| && |multiset(b)| == |b|;
  }
}
