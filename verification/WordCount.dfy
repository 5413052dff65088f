/**
 * The word-count job: mapreduce/core/mapper.c with mappers/wordcount.c, and
 * core/reducer.c with reducers/sum.c over core/libds.c and split_key_value.
 * A char is one byte of the file; a C string ends before its first NUL.
 */
module WordCount {
  import opened Basics
  import opened TextLines

  const NUL := '\0'

  function CString(s: string): (r: string)
    ensures NUL !in r && |r| <= |s| && r == s[..|r|]
    ensures |r| < |s| ==> s[|r|] == NUL
  {
    if s == "" || s[0] == NUL then "" else [s[0]] + CString(s[1..])
  }

  // ---- The mapper -----------------------------------------------------------------------------

  /** core/mapper.c, lines 19-27: the newline goes, and a carriage return before it. */
  function Strip(line: string): string {
    if |line| > 0 && line[|line| - 1] == '\n' then
      var cut := line[..|line| - 1];
      if |cut| > 0 && cut[|cut| - 1] == '\r' then cut[..|cut| - 1] else cut
    else line
  }

  function Cleaned(c: char): char {
    if c == ':' then ';' else if c == '\n' then ' ' else c
  }

  function Replaced(s: string): string {
    seq(|s|, i requires 0 <= i < |s| => Cleaned(s[i]))
  }

  /** How long the word at the head of s is. */
  function WordLength(s: string): (n: nat)
    ensures n <= |s| && ' ' !in s[..n] && (n < |s| ==> s[n] == ' ')
  {
    if s == "" || s[0] == ' ' then 0
    else
      var n := 1 + WordLength(s[1..]);
      assert s[..n] == [s[0]] + s[1..][..n - 1];
      n
  }

  /** The pieces of s between spaces, as strtok finds them. */
  function Tokens(s: string): seq<string>
    decreases |s|
  {
    if s == "" then []
    else if s[0] == ' ' then Tokens(s[1..])
    else
      var n := WordLength(s);
      [s[..n]] + Tokens(s[n..])
  }

  function LineWords(line: string): seq<string> {
    Tokens(Replaced(CString(Strip(line))))
  }

  function Words(lines: seq<string>): seq<string> {
    if lines == [] then [] else LineWords(lines[0]) + Words(lines[1..])
  }

  function OutLine(word: string): string {
    word + ": 1\n"
  }

  function OutLines(words: seq<string>): seq<string> {
    seq(|words|, i requires 0 <= i < |words| => OutLine(words[i]))
  }

  /** replace_chars, in place on a buffer that ends with a NUL. */
  method ReplaceChars(str: array<char>, ghost length: nat)
    requires length < str.Length && str[length] == NUL && NUL !in str[..length]
    modifies str
    ensures str[..length] == Replaced(old(str[..length])) && str[length..] == old(str[length..])
  {
    ghost var before := str[..];
    var i := 0;
    while str[i] != NUL
      invariant 0 <= i <= length
      invariant forall k :: 0 <= k < i ==> str[k] == Cleaned(before[k])
      invariant forall k :: i <= k < str.Length ==> str[k] == before[k]
      decreases length - i
    {
      assert before[..length][i] != NUL;
      if str[i] == ':' { str[i] := ';'; }
      if str[i] == '\n' { str[i] := ' '; }
      i := i + 1;
    }
    assert i == length;
  }

  /** The words of what strtok has found and left. */
  function Pending(found: Option<(string, string)>): seq<string> {
    if found.None? then [] else [found.value.0] + Tokens(found.value.1)
  }

  /** strtok(.., " "): skip spaces, take the word that follows, and leave the rest. */
  function Strtok(s: string): (r: Option<(string, string)>)
    ensures Tokens(s) == Pending(r)
    ensures r.Some? ==> |r.value.1| < |s|
    decreases |s|
  {
    if s == "" then None
    else if s[0] == ' ' then Strtok(s[1..])
    else var n := WordLength(s); Some((s[..n], s[n..]))
  }

  /** wordcount.c, lines 24-36: one output line for each word of the C string. */
  method Mapper(data: string) returns (output: string)
    ensures output == Concat(OutLines(Tokens(Replaced(CString(data)))))
  {
    hide Tokens, Strtok, Replaced, OutLines, WordLength, Concat, CString, Pending;
    var text := CString(data);
    var copy := new char[|text| + 1](i requires 0 <= i <= |text| => if i < |text| then text[i] else NUL);
    assert copy[..|text|] == text;
    ReplaceChars(copy, |text|);
    output := "";
    NoWords();
    ghost var words := Tokens(copy[..|text|]);
    ghost var done: seq<string> := [];
    var datum := Strtok(copy[..|text|]);
    assert done + Pending(datum) == Pending(datum);
    while datum.Some?
      invariant output == Concat(OutLines(done))
      invariant words == done + Pending(datum)
      decreases datum.Some?, if datum.Some? then |datum.value.1| else 0
    {
      output := output + (datum.value.0 + ": 1\n");
      OneMoreWord(done, datum.value.0);
      TakeWord(done, datum);
      done := done + [datum.value.0];
      datum := Strtok(datum.value.1);
    }
    NothingPending(done);
  }

  lemma TakeWord(done: seq<string>, found: Option<(string, string)>)
    requires found.Some?
    ensures done + Pending(found) == done + [found.value.0] + Tokens(found.value.1)
  {}

  lemma NothingPending(done: seq<string>)
    ensures done + Pending(None) == done
  {}

  lemma OneMoreWord(done: seq<string>, w: string)
    ensures Concat(OutLines(done + [w])) == Concat(OutLines(done)) + (w + ": 1\n")
  {
    OutLinesAppend(done, [w]);
    ConcatAppend(OutLines(done), OutLine(w));
  }

  lemma OutLinesAppend(a: seq<string>, b: seq<string>)
    ensures OutLines(a + b) == OutLines(a) + OutLines(b)
    ensures |b| == 1 ==> OutLines(b) == [OutLine(b[0])]
  {}

  /** run_mapper_on_fds: the mapper applied to each line that getline reads. */
  method RunMapper(input: string) returns (output: string)
    ensures output == Concat(OutLines(Words(Lines(input))))
  {
    hide Tokens, Replaced, OutLines, Lines, Words, CString, FirstLine;
    output := "";
    NoWords();
    var rest := input;
    ghost var done: seq<string> := [];
    while rest != ""
      invariant Words(Lines(input)) == done + Words(Lines(rest))
      invariant output == Concat(OutLines(done))
      decreases |rest|
    {
      var n := FirstLine(rest);
      var line := rest[..n];
      WordsStep(rest);
      ghost var words := LineWords(line);
      // the line end
      if |line| > 0 && line[|line| - 1] == '\n' {
        line := line[..|line| - 1];
        // with the carriage return before it, if any
        if |line| > 0 && line[|line| - 1] == '\r' {
          line := line[..|line| - 1];
        }
      }
      assert line == Strip(rest[..n]);
      var printed := Mapper(line);
      output := output + printed;
      MoreWords(done, words);
      assert done + (words + Words(Lines(rest[n..]))) == done + words + Words(Lines(rest[n..]));
      done := done + words;
      rest := rest[n..];
    }
    assert done + [] == done;
  }

  lemma MoreWords(done: seq<string>, words: seq<string>)
    ensures Concat(OutLines(done + words)) == Concat(OutLines(done)) + Concat(OutLines(words))
  {
    OutLinesAppend(done, words);
    ConcatJoin(OutLines(done), OutLines(words));
  }

  lemma WordsStep(text: string)
    requires text != ""
    ensures Words(Lines(text)) == LineWords(text[..FirstLine(text)]) + Words(Lines(text[FirstLine(text)..]))
  {
    hide FirstLine, LineWords;
    LinesStep(text);
  }

  lemma NoWords()
    ensures Words(Lines("")) == [] && Concat(OutLines([])) == ""
  {}

  lemma {:induction false} ConcatJoin(a: seq<string>, b: seq<string>)
    ensures Concat(a + b) == Concat(a) + Concat(b)
  {
    if a == [] {
      assert a + b == b;
    } else {
      assert (a + b)[1..] == a[1..] + b;
      ConcatJoin(a[1..], b);
    }
  }

  // ---- What the mapper prints parses back -------------------------------------------------------

  ghost predicate IsWord(w: string) {
    w != "" && ' ' !in w && ':' !in w && '\n' !in w && NUL !in w
  }

  lemma {:induction false} TokensAreWords(s: string)
    requires ':' !in s && '\n' !in s && NUL !in s
    ensures forall w :: w in Tokens(s) ==> IsWord(w)
    decreases |s|
  {
    if s != "" {
      if s[0] == ' ' {
        TokensAreWords(s[1..]);
      } else {
        hide WordLength;
        TokensAreWords(s[WordLength(s)..]);
        assert WordLength(s) > 0 by { WordStarts(s); }
        assert IsWord(s[..WordLength(s)]);
      }
    }
  }

  lemma WordStarts(s: string)
    requires s != "" && s[0] != ' '
    ensures WordLength(s) > 0
  {}

  /** Every word the mapper prints is non-empty and has no space, colon, newline or NUL. */
  lemma {:induction false} WordsAreWords(lines: seq<string>)
    ensures forall w :: w in Words(lines) ==> IsWord(w)
  {
    if lines != [] {
      TokensAreWords(Replaced(CString(Strip(lines[0]))));
      WordsAreWords(lines[1..]);
    }
  }

  // ---- What the words are -------------------------------------------------------------------------

  /** w stands in s from p on, with a space or an end of s on either side. */
  ghost predicate StandsAt(s: string, w: string, p: nat) {
    && w != "" && ' ' !in w
    && p + |w| <= |s| && s[p..p + |w|] == w
    && (p > 0 ==> s[p - 1] == ' ')
    && (p + |w| < |s| ==> s[p + |w|] == ' ')
  }

  // One after the other, with something in between.
  ghost predicate InOrder(words: seq<string>, starts: seq<nat>)
    requires |starts| == |words|
  {
    forall i, j :: 0 <= i < j < |words| ==> starts[i] + |words[i]| < starts[j]
  }

  // Outside the words there are only spaces.
  ghost predicate Cover(s: string, words: seq<string>, starts: seq<nat>)
    requires |starts| == |words|
  {
    forall k :: 0 <= k < |s| && s[k] != ' ' ==> exists i :: 0 <= i < |words| && starts[i] <= k < starts[i] + |words[i]|
  }

  /** The words are the maximal runs of characters other than spaces, in the order in which they stand in s. */
  ghost predicate AreRuns(s: string, words: seq<string>, starts: seq<nat>) {
    && |starts| == |words|
    && (forall i :: 0 <= i < |words| ==> StandsAt(s, words[i], starts[i]))
    && InOrder(words, starts) && Cover(s, words, starts)
  }

  lemma {:induction false} TokensAreRuns(s: string) returns (starts: seq<nat>)
    ensures AreRuns(s, Tokens(s), starts)
    decreases |s|
  {
    if s == "" {
      starts := [];
    } else if s[0] == ' ' {
      var rest := TokensAreRuns(s[1..]);
      starts := Shifted(rest, 1);
      AfterSpace(s, Tokens(s[1..]), rest);
    } else {
      WordStarts(s);
      var n := WordLength(s);
      var rest := TokensAreRuns(s[n..]);
      starts := [0] + Shifted(rest, n);
      AfterWord(s, n, Tokens(s[n..]), rest);
    }
  }

  function Shifted(starts: seq<nat>, n: nat): (r: seq<nat>)
    ensures |r| == |starts| && forall i :: 0 <= i < |starts| ==> r[i] == starts[i] + n
  {
    seq(|starts|, i requires 0 <= i < |starts| => starts[i] + n)
  }

  lemma StandsLater(s: string, n: nat, w: string, p: nat)
    requires n <= |s| && StandsAt(s[n..], w, p) && (p == 0 && n > 0 ==> s[n - 1] == ' ')
    ensures StandsAt(s, w, p + n)
  {
    assert s[n..][p..p + |w|] == s[p + n..p + n + |w|];
  }

  lemma AfterSpace(s: string, words: seq<string>, starts: seq<nat>)
    requires s != "" && s[0] == ' ' && AreRuns(s[1..], words, starts)
    ensures AreRuns(s, words, Shifted(starts, 1))
  {
    hide StandsAt, Cover;
    var later := Shifted(starts, 1);
    forall i | 0 <= i < |words| ensures StandsAt(s, words[i], later[i]) {
      StandsLater(s, 1, words[i], starts[i]);
    }
    CoverAfterSpace(s, words, starts);
  }

  lemma CoverAfterSpace(s: string, words: seq<string>, starts: seq<nat>)
    requires s != "" && s[0] == ' ' && |starts| == |words| && Cover(s[1..], words, starts)
    ensures Cover(s, words, Shifted(starts, 1))
  {
    var later := Shifted(starts, 1);
    forall k | 0 <= k < |s| && s[k] != ' ' ensures exists i :: 0 <= i < |words| && later[i] <= k < later[i] + |words[i]| {
      var i := CoveredBy(s[1..], words, starts, k - 1);
      assert later[i] <= k < later[i] + |words[i]|;
    }
  }

  lemma AfterWord(s: string, n: nat, words: seq<string>, starts: seq<nat>)
    requires 0 < n <= |s| && ' ' !in s[..n] && (n < |s| ==> s[n] == ' ') && AreRuns(s[n..], words, starts)
    ensures AreRuns(s, [s[..n]] + words, [0] + Shifted(starts, n))
  {
    hide InOrder, Cover;
    assert StandsAt(s, s[..n], 0);
    hide StandsAt;
    forall i | 0 <= i < |words| ensures starts[i] > 0 && StandsAt(s, words[i], starts[i] + n) {
      LaterWord(s, n, words[i], starts[i]);
    }
    OrderAfter(s[..n], words, starts);
    CoverAfter(s, n, words, starts);
  }

  lemma LaterWord(s: string, n: nat, w: string, p: nat)
    requires 0 < n <= |s| && (n < |s| ==> s[n] == ' ') && StandsAt(s[n..], w, p)
    ensures p > 0 && StandsAt(s, w, p + n)
  {
    assert w[0] == s[n..][p] && w[0] in w;
    StandsLater(s, n, w, p);
  }

  lemma OrderAfter(first: string, words: seq<string>, starts: seq<nat>)
    requires |starts| == |words| && InOrder(words, starts) && forall i :: 0 <= i < |starts| ==> starts[i] > 0
    ensures InOrder([first] + words, [0] + Shifted(starts, |first|))
  {
    var all, later := [first] + words, [0] + Shifted(starts, |first|);
    forall i, j | 0 <= i < j < |all| ensures later[i] + |all[i]| < later[j] {
      assert all[j] == words[j - 1] && later[j] == starts[j - 1] + |first|;
      if i > 0 { assert all[i] == words[i - 1] && later[i] == starts[i - 1] + |first|; }
    }
  }

  lemma CoverAfter(s: string, n: nat, words: seq<string>, starts: seq<nat>)
    requires n <= |s| && |starts| == |words| && Cover(s[n..], words, starts)
    ensures Cover(s, [s[..n]] + words, [0] + Shifted(starts, n))
  {
    var all, later := [s[..n]] + words, [0] + Shifted(starts, n);
    forall k | 0 <= k < |s| && s[k] != ' ' ensures exists i :: 0 <= i < |all| && later[i] <= k < later[i] + |all[i]| {
      if k < n {
        assert later[0] <= k < later[0] + |all[0]|;
      } else {
        var i := CoveredBy(s[n..], words, starts, k - n);
        assert later[i + 1] <= k < later[i + 1] + |all[i + 1]|;
      }
    }
  }

  lemma CoveredBy(s: string, words: seq<string>, starts: seq<nat>, k: nat) returns (i: nat)
    requires |starts| == |words| && Cover(s, words, starts) && k < |s| && s[k] != ' '
    ensures i < |words| && starts[i] <= k < starts[i] + |words[i]|
  {
    i :| 0 <= i < |words| && starts[i] <= k < starts[i] + |words[i]|;
  }

  /** A line without its end, which is a newline and any carriage return before it. */
  ghost function LineText(line: string): string {
    if |line| > 1 && line[|line| - 2..] == "\r\n" then line[..|line| - 2]
    else if line != "" && line[|line| - 1] == '\n' then line[..|line| - 1]
    else line
  }

  /** What the mapper makes of a text: up to the first NUL, with a semicolon for each colon and a space for each newline. */
  ghost predicate IsShown(text: string, shown: string) {
    && |shown| <= |text|
    && (|shown| < |text| ==> text[|shown|] == '\0')
    && (forall k :: 0 <= k < |shown| ==> text[k] != '\0')
    && (forall k :: 0 <= k < |shown| ==> shown[k] == if text[k] == ':' then ';' else if text[k] == '\n' then ' ' else text[k])
  }

  /** The words of a line are the maximal runs between spaces of what is shown of it. */
  lemma LineWordsAreRuns(line: string)
    ensures exists shown, starts :: IsShown(LineText(line), shown) && AreRuns(shown, LineWords(line), starts)
  {
    hide IsShown, LineText, AreRuns, Tokens, Strip, CString, Replaced;
    StripIsText(line);
    ShownOf(Strip(line));
    var starts := TokensAreRuns(Replaced(CString(Strip(line))));
    assert IsShown(LineText(line), Replaced(CString(Strip(line)))) && AreRuns(Replaced(CString(Strip(line))), LineWords(line), starts);
  }

  lemma StripIsText(line: string)
    ensures Strip(line) == LineText(line)
  {
    if |line| > 1 {
      var end := line[|line| - 2..];
      assert end[0] == line[|line| - 2] && end[1] == line[|line| - 1];
      assert end == "\r\n" <==> end[0] == '\r' && end[1] == '\n';
      assert line[..|line| - 1][..|line| - 2] == line[..|line| - 2];
    }
  }

  lemma ShownOf(text: string)
    ensures IsShown(text, Replaced(CString(text)))
  {
    var shown := CString(text);
    hide CString;
    assert forall k :: 0 <= k < |shown| ==> shown[k] in shown && shown[k] == text[k];
  }

  ghost predicate Between(words: seq<string>, from: nat, to: nat, part: seq<string>) {
    from <= to <= |words| && words[from..to] == part
  }

  /** The words of the lines are the words of each line in turn: those of line i lie between two cuts. */
  ghost predicate LineByLine(words: seq<string>, lines: seq<string>, cuts: seq<nat>) {
    && |cuts| == |lines| + 1 && cuts[0] == 0 && cuts[|lines|] == |words|
    && forall i :: 0 <= i < |lines| ==> Between(words, cuts[i], cuts[i + 1], LineWords(lines[i]))
  }

  lemma {:induction false} WordsLineByLine(lines: seq<string>) returns (cuts: seq<nat>)
    ensures LineByLine(Words(lines), lines, cuts)
  {
    hide LineWords;
    if lines == [] {
      cuts := [0];
    } else {
      var rest := WordsLineByLine(lines[1..]);
      var first, later := LineWords(lines[0]), Words(lines[1..]);
      cuts := [0] + Shifted(rest, |first|);
      assert Words(lines) == first + later;
      assert Between(first + later, 0, |first|, first);
      forall i | 0 < i < |lines| ensures Between(first + later, cuts[i], cuts[i + 1], LineWords(lines[i])) {
        assert lines[1..][i - 1] == lines[i];
        BetweenLater(first, later, rest[i - 1], rest[i], LineWords(lines[i]));
      }
    }
  }

  lemma BetweenLater(first: seq<string>, later: seq<string>, from: nat, to: nat, part: seq<string>)
    requires Between(later, from, to, part)
    ensures Between(first + later, |first| + from, |first| + to, part)
  {
    assert (first + later)[|first| + from..|first| + to] == later[from..to];
  }
}
