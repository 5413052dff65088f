/** Text as getline sees it: a sequence of lines, each with its newline if it has one. */
module TextLines {

  function Lines(text: string): (lines: seq<string>)
    decreases |text|
  {
    if text == "" then []
    else
      var n := FirstLine(text);
      [text[..n]] + Lines(text[n..])
  }

  /** How much of a non-empty text getline returns. */
  function FirstLine(text: string): (n: nat)
    requires text != ""
    ensures 0 < n <= |text|
    ensures n == |text| || text[n - 1] == '\n'
    ensures '\n' !in text[..n - 1]
  {
    if text[0] == '\n' || |text| == 1 then 1
    else
      var n := 1 + FirstLine(text[1..]);
      assert text[..n - 1] == [text[0]] + text[1..][..n - 2];
      n
  }

  function Concat(parts: seq<string>): string {
    if parts == [] then "" else parts[0] + Concat(parts[1..])
  }

  lemma {:induction false} ConcatAppend(parts: seq<string>, last: string)
    ensures Concat(parts + [last]) == Concat(parts) + last
  {
    if parts == [] {
      assert parts + [last] == [last];
    } else {
      assert (parts + [last])[1..] == parts[1..] + [last];
      ConcatAppend(parts[1..], last);
    }
  }

  function AllLines(parts: seq<string>): seq<string> {
    if parts == [] then [] else Lines(parts[0]) + AllLines(parts[1..])
  }

  lemma {:induction false} AllLinesAppend(parts: seq<string>, last: string)
    ensures AllLines(parts + [last]) == AllLines(parts) + Lines(last)
  {
    if parts == [] {
      assert parts + [last] == [last];
    } else {
      assert (parts + [last])[1..] == parts[1..] + [last];
      AllLinesAppend(parts[1..], last);
    }
  }

  /** Text whose end is the end of a line adds its lines to those that follow. */
  lemma {:induction false} LinesJoin(a: string, b: string)
    requires a == "" || b == "" || a[|a| - 1] == '\n'
    ensures Lines(a + b) == Lines(a) + Lines(b)
    decreases |a|
  {
    if a == "" {
      assert a + b == b;
      NoLines();
    } else if b == "" {
      assert a + b == a;
      NoLines();
    } else {
      LastStays(a, FirstLine(a));
      LinesJoin(a[FirstLine(a)..], b);
      JoinStep(a, b);
    }
  }

  lemma JoinStep(a: string, b: string)
    requires a != "" && b != "" && a[|a| - 1] == '\n'
    requires Lines(a[FirstLine(a)..] + b) == Lines(a[FirstLine(a)..]) + Lines(b)
    ensures Lines(a + b) == Lines(a) + Lines(b)
  {
    hide FirstLine, Lines;
    LinesStep(a);
    FirstOfJoin(a, b);
    Prepend(a[..FirstLine(a)], Lines(a[FirstLine(a)..]), Lines(b));
  }

  lemma FirstOfJoin(a: string, b: string)
    requires a != "" && b != "" && a[|a| - 1] == '\n'
    ensures Lines(a + b) == [a[..FirstLine(a)]] + Lines(a[FirstLine(a)..] + b)
  {
    hide FirstLine, Lines;
    LinesStep(a + b);
    FirstLineJoin(a, b);
    SplitJoin(a, b, FirstLine(a));
  }

  lemma LastStays(a: string, n: nat)
    requires n <= |a|
    ensures |a[n..]| == |a| - n && (n < |a| ==> a[n..][|a| - n - 1] == a[|a| - 1])
  {}

  lemma SplitJoin(a: string, b: string, n: nat)
    requires n <= |a|
    ensures (a + b)[..n] == a[..n] && (a + b)[n..] == a[n..] + b
  {}

  lemma Prepend(x: string, a: seq<string>, b: seq<string>)
    ensures [x] + (a + b) == [x] + a + b
  {}

  lemma LinesStep(text: string)
    requires text != ""
    ensures Lines(text) == [text[..FirstLine(text)]] + Lines(text[FirstLine(text)..])
  {
    hide FirstLine;
  }

  lemma NoLines()
    ensures Lines("") == []
  {}

  lemma FirstLineJoin(a: string, b: string)
    requires a != "" && (b == "" || a[|a| - 1] == '\n')
    ensures FirstLine(a + b) == FirstLine(a)
  {
    hide FirstLine;
    var n := FirstLine(a);
    assert (a + b)[..n - 1] == a[..n - 1];
    FirstLineUnique(a + b, n);
  }

  /** FirstLine is determined by its contract. */
  lemma {:induction false} FirstLineUnique(text: string, n: nat)
    requires 0 < n <= |text| && (n == |text| || text[n - 1] == '\n') && '\n' !in text[..n - 1]
    ensures FirstLine(text) == n
  {
    var m := FirstLine(text);
    hide FirstLine;
    assert forall k :: 0 <= k < n - 1 ==> text[k] in text[..n - 1];
    assert forall k :: 0 <= k < m - 1 ==> text[k] in text[..m - 1];
  }

  /** The lines make up the text, and each but the last ends with its only newline; the last holds none before its end. */
  lemma {:induction false} LinesMakeText(text: string)
    ensures Concat(Lines(text)) == text
    ensures forall i :: 0 <= i < |Lines(text)| ==> Lines(text)[i] != "" && '\n' !in Lines(text)[i][..|Lines(text)[i]| - 1]
    ensures forall i :: 0 <= i < |Lines(text)| - 1 ==> Lines(text)[i] != "" && Lines(text)[i][|Lines(text)[i]| - 1] == '\n'
    decreases |text|
  {
    hide FirstLine;
    if text != "" {
      var n := FirstLine(text);
      LinesMakeText(text[n..]);
      LinesStep(text);
      if n == |text| { NoLines(); }
      hide Lines;
      assert text[..n] + text[n..] == text;
      assert text[..n][..n - 1] == text[..n - 1];
      assert Lines(text)[1..] == Lines(text[n..]);
    }
  }
}
