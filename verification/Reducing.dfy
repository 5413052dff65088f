/**
 * The reducing side of the word-count job (mapreduce/core/reducer.c, split_key_value in
 * core/utils.c, core/libds.c and reducers/sum.c), and the whole job: a run spread over any
 * number of mappers equals the sequential one.
 */
module Reducing {
  import opened Basics
  import opened Decimal
  import opened TextLines
  import opened WordCount
  import Splitter

  // ---- split_key_value ------------------------------------------------------------------------

  /** strstr(s, ": "), or the length of s. */
  function ColonSpace(s: string): (n: nat)
    ensures n <= |s| && (n < |s| ==> n + 1 < |s| && s[n] == ':' && s[n + 1] == ' ')
  {
    if |s| < 2 then |s|
    else if s[0] == ':' && s[1] == ' ' then 0
    else 1 + ColonSpace(s[1..])
  }

  /** It is the first one. */
  lemma {:induction false} ColonSpaceIsFirst(s: string, i: nat)
    requires i + 1 < |s| && s[i] == ':' && s[i + 1] == ' '
    ensures ColonSpace(s) <= i
  {
    if i > 0 { ColonSpaceIsFirst(s[1..], i - 1); }
  }

  /** strstr(s, "\n"), or the length of s. */
  function Newline(s: string): (n: nat)
    ensures n <= |s| && (n < |s| ==> s[n] == '\n') && '\n' !in s[..n]
  {
    if s == "" || s[0] == '\n' then 0
    else
      var n := 1 + Newline(s[1..]);
      assert s[..n] == [s[0]] + s[1..][..n - 1];
      n
  }

  /** The key and the value of a line, as C strings, once both marks are overwritten with NUL. */
  function SplitLine(line: string): Option<(string, string)> {
    var split, newline := ColonSpace(line), Newline(line);
    if split == |line| || newline == |line| then None
    else
      var cut := line[split := NUL][newline := NUL];
      Some((CString(cut), CString(cut[split + 2..])))
  }

  // The C string that starts at position p of a buffer.
  function CStringAt(buf: string, p: nat): string
    requires p <= |buf|
  {
    CString(buf[p..])
  }

  lemma ColonSpaceStep(s: string, i: nat)
    requires i < |s|
    ensures !(s[i] == ':' && i + 1 < |s| && s[i + 1] == ' ') ==> ColonSpace(s[i..]) == 1 + ColonSpace(s[i + 1..])
    ensures s[i] == ':' && i + 1 < |s| && s[i + 1] == ' ' ==> ColonSpace(s[i..]) == 0
  {
    assert s[i..][1..] == s[i + 1..];
  }

  lemma NewlineStep(s: string, i: nat)
    requires i < |s|
    ensures Newline(s[i..]) == if s[i] == '\n' then 0 else 1 + Newline(s[i + 1..])
  {
    assert s[i..][1..] == s[i + 1..];
  }

  method StrStrColonSpace(line: array<char>, ghost text: string) returns (split: nat)
    requires |text| < line.Length && line[..|text|] == text && line[|text|] == NUL && NUL !in text
    ensures split == ColonSpace(text)
  {
    hide ColonSpace;
    split := 0;
    assert text[0..] == text;
    while line[split] != NUL && !(line[split] == ':' && line[split + 1] == ' ')
      invariant 0 <= split <= |text|
      invariant ColonSpace(text) == split + ColonSpace(text[split..])
      decreases |text| - split
    {
      ColonSpaceStep(text, split);
      split := split + 1;
    }
    if split < |text| { ColonSpaceStep(text, split); }
  }

  method StrStrNewline(line: array<char>, ghost text: string) returns (newline: nat)
    requires |text| < line.Length && line[..|text|] == text && line[|text|] == NUL && NUL !in text
    ensures newline == Newline(text)
  {
    hide Newline;
    newline := 0;
    assert text[0..] == text;
    while line[newline] != NUL && line[newline] != '\n'
      invariant 0 <= newline <= |text|
      invariant Newline(text) == newline + Newline(text[newline..])
      decreases |text| - newline
    {
      NewlineStep(text, newline);
      newline := newline + 1;
    }
    if newline < |text| { NewlineStep(text, newline); }
  }

  method SplitKeyValue(line: array<char>, ghost length: nat) returns (ok: bool, key: nat, value: nat)
    requires length < line.Length && line[length] == NUL && NUL !in line[..length]
    modifies line
    ensures ok == SplitLine(old(line[..length])).Some?
    ensures !ok ==> line[..] == old(line[..])
    ensures ok ==> key <= length && value <= length
    ensures ok ==>
      SplitLine(old(line[..length])) == Some((CStringAt(line[..length], key), CStringAt(line[..length], value)))
  {
    hide ColonSpace, Newline, CString;
    ghost var text := line[..length];
    var split := StrStrColonSpace(line, text);
    var newline := StrStrNewline(line, text);
    assert split < length ==> text[split] != NUL;
    assert newline < length ==> text[newline] != NUL;
    if line[split] == NUL || line[newline] == NUL {
      return false, 0, 0;
    }
    line[split] := NUL;
    line[newline] := NUL;
    assert line[..length] == text[split := NUL][newline := NUL];
    assert line[..length][0..] == line[..length];
    return true, 0, split + 2;
  }

  /** What the mapper printed for a word parses back to the word and "1". */
  lemma SplitOutLine(w: string)
    requires IsWord(w)
    ensures CString(OutLine(w)) == OutLine(w) && SplitLine(OutLine(w)) == Some((w, "1"))
  {
    var line := OutLine(w);
    ColonSpaceAfter(w);
    NewlineAfter(w + ": 1");
    NoNul(line);
    assert w + ": 1" + "\n" == line;
    hide IsWord, CString, ColonSpace, Newline;
    CutLine(w);
    CStringUntil(w, [' ', '1', '\0']);
    CStringUntil("1", "");
  }

  lemma CutLine(w: string)
    ensures ghost var cut := (w + ": 1\n")[|w| := NUL][|w| + 3 := NUL];
            cut == w + ['\0'] + [' ', '1', '\0'] && cut[|w| + 2..] == "1" + ['\0'] + ""
  {
  }

  lemma {:induction false} ColonSpaceAfter(w: string)
    requires ':' !in w
    ensures ColonSpace(w + ": 1\n") == |w|
  {
    if w == "" {
      assert w + ": 1\n" == ": 1\n";
    } else {
      assert (w + ": 1\n")[1..] == w[1..] + ": 1\n";
      ColonSpaceAfter(w[1..]);
    }
  }

  lemma {:induction false} NewlineAfter(w: string)
    requires '\n' !in w
    ensures Newline(w + "\n") == |w|
  {
    if w == "" {
      assert w + "\n" == "\n";
    } else {
      assert (w + "\n")[1..] == w[1..] + "\n";
      NewlineAfter(w[1..]);
    }
  }

  lemma {:induction false} NoNul(s: string)
    requires NUL !in s
    ensures CString(s) == s
  {
    if s != "" { NoNul(s[1..]); }
  }

  lemma {:induction false} CStringUntil(a: string, b: string)
    requires NUL !in a
    ensures CString(a + [NUL] + b) == a
  {
    if a == "" {
      assert a + [NUL] + b == [NUL] + b;
    } else {
      assert (a + [NUL] + b)[1..] == a[1..] + [NUL] + b;
      CStringUntil(a[1..], b);
    }
  }

  // ---- The reducer and the datastore -------------------------------------------------------------

  /** sum.c on unbounded integers; the C code adds two ints. */
  function Added(value1: string, value2: string): string {
    Print(Atoi(value1) + Atoi(value2))
  }

  predicate IsInt(x: int) {
    -INTS <= x < INTS
  }

  method Reducer(value1: string, value2: string) returns (res: string)
    requires IsInt(Atoi(value1)) && IsInt(Atoi(value2)) && IsInt(Atoi(value1) + Atoi(value2))
    ensures Atoi(res) == Atoi(value1) + Atoi(value2) && res == Added(value1, value2)
  {
    var count1 := Atoi(value1);
    var count2 := Atoi(value2);
    RoundTrip(count1 + count2);
    res := Print(count1 + count2);
  }

  /** libds.c: a search tree over the keys, seen as the map it represents. */
  class Datastore {
    var entries: map<string, string>

    constructor ()
      ensures entries == map[]
    {
      entries := map[];
    }

    method Put(key: string, value: string) returns (added: bool)
      modifies this
      ensures added == (key !in old(entries))
      ensures entries == if added then old(entries)[key := value] else old(entries)
    {
      if key !in entries {
        entries := entries[key := value];
        return true;
      }
      return false;
    }

    method Get(key: string) returns (value: Option<string>)
      ensures value == if key in entries then Some(entries[key]) else None
    {
      if key !in entries { return None; }
      return Some(entries[key]);
    }

    method Update(key: string, value: string) returns (updated: bool)
      modifies this
      ensures updated == (key in old(entries))
      ensures entries == if updated then old(entries)[key := value] else old(entries)
    {
      if key !in entries { return false; }
      entries := entries[key := value];
      return true;
    }
  }

  /** One line of the reducer's input: malformed lines are skipped. */
  function Fed(m: map<string, string>, line: string): map<string, string> {
    match SplitLine(CString(line))
    case None => m
    case Some((k, v)) => m[k := if k in m then Added(m[k], v) else v]
  }

  function Fold(lines: seq<string>): map<string, string> {
    if lines == [] then map[] else Fed(Fold(lines[..|lines| - 1]), lines[|lines| - 1])
  }

  // Feeding the line adds within the range of int.
  predicate AddsInRange(m: map<string, string>, line: string) {
    match SplitLine(CString(line))
    case None => true
    case Some((k, v)) => k in m ==> IsInt(Atoi(m[k])) && IsInt(Atoi(v)) && IsInt(Atoi(m[k]) + Atoi(v))
  }

  ghost predicate NoOverflow(lines: seq<string>) {
    forall i :: 0 <= i < |lines| ==> AddsInRange(Fold(lines[..i]), lines[i])
  }

  /** run_reducer_on: getline and fold until the end of the input. */
  method RunReducer(input: string) returns (ds: Datastore)
    requires NoOverflow(Lines(input))
    ensures fresh(ds) && ds.entries == Fold(Lines(input))
  {
    hide CString, SplitLine, FirstLine, Lines, CStringAt;
    ds := new Datastore();
    var rest := input;
    ghost var lines := Lines(input);
    ghost var i := 0;
    assert lines[..0] == [];
    while rest != ""
      invariant 0 <= i <= |lines| && Lines(rest) == lines[i..]
      invariant fresh(ds) && ds.entries == Fold(lines[..i])
      decreases |rest|
    {
      var n := FirstLine(rest);
      LinesStep(rest);
      assert rest[..n] == lines[i] && Lines(rest[n..]) == lines[i + 1..];
      assert lines[..i + 1][..i] == lines[..i];
      assert AddsInRange(Fold(lines[..i]), lines[i]);
      FeedLine(ds, rest[..n]);
      rest := rest[n..];
      i := i + 1;
    }
    NoLines();
    assert lines[..i] == lines;
  }

  /** The body of the loop of run_reducer_on, on one line read by getline. */
  method FeedLine(ds: Datastore, line: string)
    requires AddsInRange(ds.entries, line)
    modifies ds
    ensures ds.entries == Fed(old(ds.entries), line)
  {
    hide SplitLine, Added, Atoi;
    var text := CString(line);
    var buffer := new char[|text| + 1](i requires 0 <= i <= |text| => if i < |text| then text[i] else NUL);
    assert buffer[..|text|] == text;
    var ok, key, value := SplitKeyValue(buffer, |text|);
    if !ok { return; }
    var k, v := CStringAt(buffer[..|text|], key), CStringAt(buffer[..|text|], value);
    var current := ds.Get(k);
    if current.Some? {
      var newValue := Reducer(current.value, v);
      var _ := ds.Update(k, newValue);
    } else {
      var _ := ds.Put(k, v);
    }
  }

  // ---- Counting ----------------------------------------------------------------------------------

  ghost predicate IsOutput(line: string) {
    exists w :: IsWord(w) && line == OutLine(w)
  }

  lemma OutLineInjective(v: string, w: string)
    requires OutLine(v) == OutLine(w)
    ensures v == w
  {
    assert v == OutLine(v)[..|OutLine(v)| - 4];
    assert w == OutLine(w)[..|OutLine(w)| - 4];
  }

  /** The datastore after these lines: each word with the number of its lines. */
  ghost predicate Counts(m: map<string, string>, lines: seq<string>) {
    && (forall k :: k in m <==> IsWord(k) && OutLine(k) in lines)
    && (forall k :: k in m ==> m[k] == Print(multiset(lines)[OutLine(k)]))
  }

  lemma FedWord(m: map<string, string>, w: string)
    requires IsWord(w)
    ensures Fed(m, OutLine(w)) == m[w := if w in m then Added(m[w], "1") else "1"]
    ensures AddsInRange(m, OutLine(w)) <==>
      (w in m ==> IsInt(Atoi(m[w])) && IsInt(Atoi("1")) && IsInt(Atoi(m[w]) + Atoi("1")))
  {
    hide SplitLine, CString, IsWord, OutLine, Print, Atoi, IsInt, Added;
    SplitOutLine(w);
  }

  lemma CountUp(c: nat)
    ensures Added(Print(c), "1") == Print(c + 1) && Atoi(Print(c)) == c && Atoi("1") == 1
  {
    RoundTrip(c);
    AtoiOne();
  }

  lemma FedCounts(m: map<string, string>, lines: seq<string>, w: string)
    requires Counts(m, lines) && IsWord(w)
    ensures Counts(Fed(m, OutLine(w)), lines + [OutLine(w)])
    ensures AddsInRange(m, OutLine(w)) <==> multiset(lines + [OutLine(w)])[OutLine(w)] < INTS
  {
    hide IsWord, OutLine, Print, Atoi, Fed, AddsInRange, Added;
    var line := OutLine(w);
    FedWord(m, w);
    assert multiset(lines + [line]) == multiset(lines) + multiset{line};
    CountUp(multiset(lines)[line]);
    PrintOne();
    assert w !in m ==> multiset(lines)[line] == 0;
    forall k | OutLine(k) == OutLine(w) ensures k == w { OutLineInjective(k, w); }
  }

  lemma AtoiOne()
    ensures Atoi("1") == 1
  {
    PrintOne();
    RoundTrip(1);
  }

  lemma PrintOne()
    ensures Print(1) == "1"
  {}

  /** After any sequence of mapper output lines, the datastore holds the count of each word. */
  lemma {:induction false} FoldCounts(lines: seq<string>)
    requires forall l :: l in lines ==> IsOutput(l)
    ensures Counts(Fold(lines), lines)
  {
    hide IsOutput, Counts, Fold;
    if lines == [] {
      NothingCounted();
    } else {
      var n := |lines| - 1;
      FoldCounts(lines[..n]);
      assert lines[n] in lines;
      assert lines[..n] + [lines[n]] == lines;
      FoldOneMore(lines[..n], lines[n]);
    }
  }

  lemma FoldOneMore(lines: seq<string>, last: string)
    requires IsOutput(last) && Counts(Fold(lines), lines)
    ensures Counts(Fold(lines + [last]), lines + [last])
  {
    hide Fed, IsWord, OutLine, Counts;
    var w :| IsWord(w) && last == OutLine(w);
    FedCounts(Fold(lines), lines, w);
    assert (lines + [last])[..|lines|] == lines;
  }

  lemma NothingCounted()
    ensures Counts(Fold([]), [])
  {}

  /** The sums stay in the range of int exactly when no line comes 2^31 times or more. */
  lemma {:induction false} CountsNoOverflow(lines: seq<string>)
    requires forall l :: l in lines ==> IsOutput(l)
    ensures NoOverflow(lines) <==> forall l :: l in lines ==> multiset(lines)[l] < INTS
  {
    hide Fed, IsWord, OutLine, Counts, AddsInRange, Fold;
    if lines != [] {
      var n := |lines| - 1;
      var before, last := lines[..n], lines[n];
      assert lines == before + [last];
      CountsNoOverflow(before);
      FoldCounts(before);
      assert last in lines;
      var w :| IsWord(w) && last == OutLine(w);
      FedCounts(Fold(before), before, w);
      OneMoreLine(before, last);
      assert forall l :: l in lines ==> multiset(lines)[l] == multiset(before)[l] + if l == last then 1 else 0;
    }
  }

  lemma OneMoreLine(before: seq<string>, last: string)
    ensures NoOverflow(before + [last]) <==> NoOverflow(before) && AddsInRange(Fold(before), last)
  {
    hide AddsInRange, Fold;
    var lines := before + [last];
    assert lines[..|before|] == before;
    assert forall i :: 0 <= i < |before| ==> lines[..i] == before[..i] && lines[i] == before[i];
    if NoOverflow(lines) {
      assert AddsInRange(Fold(lines[..|before|]), lines[|before|]);
      forall i | 0 <= i < |before| ensures AddsInRange(Fold(before[..i]), before[i]) {
        assert AddsInRange(Fold(lines[..i]), lines[i]);
      }
    }
  }

  // ---- The whole job --------------------------------------------------------------------------------

  /** What one sequential pass counts. */
  ghost function WordCounts(data: string): map<string, string> {
    map w | w in Words(Lines(data)) :: Print(multiset(Words(Lines(data)))[w])
  }

  /** All that the mappers print, portion after portion. */
  function MapperLines(portions: seq<string>): seq<string> {
    if portions == [] then [] else OutLines(Words(Lines(portions[0]))) + MapperLines(portions[1..])
  }

  lemma {:induction false} WordsJoin(a: seq<string>, b: seq<string>)
    ensures Words(a + b) == Words(a) + Words(b)
  {
    hide LineWords;
    if a == [] {
      assert a + b == b;
    } else {
      assert (a + b)[1..] == a[1..] + b;
      WordsJoin(a[1..], b);
    }
  }

  lemma {:induction false} MapperLinesAll(portions: seq<string>)
    ensures MapperLines(portions) == OutLines(Words(AllLines(portions)))
  {
    hide Words, Lines, OutLines;
    if portions == [] {
      NoneAtAll();
    } else {
      MapperLinesAll(portions[1..]);
      WordsJoin(Lines(portions[0]), AllLines(portions[1..]));
      OutLinesAppend(Words(Lines(portions[0])), Words(AllLines(portions[1..])));
    }
  }

  lemma NoneAtAll()
    ensures OutLines(Words([])) == []
  {}

  lemma {:induction false} OutLinesCount(words: seq<string>, w: string)
    ensures multiset(OutLines(words))[OutLine(w)] == multiset(words)[w]
    ensures OutLine(w) in OutLines(words) <==> w in words
  {
    hide OutLine;
    if words == [] {
      assert OutLines(words) == [];
    } else {
      var n := |words| - 1;
      OutLinesCount(words[..n], w);
      assert words == words[..n] + [words[n]];
      OutLinesAppend(words[..n], [words[n]]);
      if OutLine(words[n]) == OutLine(w) { OutLineInjective(words[n], w); }
    }
  }

  lemma OutLinesAreOutput(words: seq<string>)
    requires forall w :: w in words ==> IsWord(w)
    ensures forall l :: l in OutLines(words) ==> IsOutput(l)
  {
    hide IsWord, OutLine;
    forall l | l in OutLines(words) ensures IsOutput(l) {
      var i :| 0 <= i < |words| && OutLines(words)[i] == l;
      assert l == OutLine(words[i]) && words[i] in words;
    }
  }

  /** getline gives back the lines that were written. */
  lemma {:induction false} LinesOfOutput(lines: seq<string>)
    requires forall l :: l in lines ==> IsOutput(l)
    ensures Lines(Concat(lines)) == lines
  {
    if lines != [] {
      LinesOfOutput(lines[1..]);
      assert lines[0] in lines;
      var w :| IsWord(w) && lines[0] == OutLine(w);
      OneLine(w);
      LinesJoin(lines[0], Concat(lines[1..]));
    }
  }

  lemma OneLine(w: string)
    requires IsWord(w)
    ensures Lines(OutLine(w)) == [OutLine(w)] && OutLine(w)[|OutLine(w)| - 1] == '\n'
  {
    var line := OutLine(w);
    assert line[..|line| - 1] == w + ": 1";
    FirstLineUnique(line, |line|);
    LinesStep(line);
    assert line[..|line|] == line && line[|line|..] == "";
    NoLines();
  }

  /** While the products of the splitter do not wrap, the mappers together print the lines of one sequential pass. */
  lemma MappersPrintAll(data: string, count: nat)
    requires Splitter.Fits(|data|, count)
    ensures MapperLines(Splitter.Portions(data, count, count)) == OutLines(Words(Lines(data)))
  {
    MapperLinesAll(Splitter.Portions(data, count, count));
    Splitter.PortionsKeepLines(data, count);
  }

  /** Any interleaving of these lines folds to the counts of the sequential pass. */
  lemma CountsAgree(data: string, lines: seq<string>)
    requires multiset(lines) == multiset(OutLines(Words(Lines(data))))
    ensures forall l :: l in lines ==> IsOutput(l)
    ensures Fold(lines) == WordCounts(data)
  {
    hide Words, Lines, IsWord, OutLine, OutLines, Fold;
    var words := Words(Lines(data));
    WordsAreWords(Lines(data));
    OutLinesAreOutput(words);
    forall l | l in lines ensures IsOutput(l) {
      assert l in multiset(lines);
    }
    FoldCounts(lines);
    var m := Fold(lines);
    forall k ensures k in m <==> k in words {
      OutLinesCount(words, k);
      assert OutLine(k) in lines <==> OutLine(k) in multiset(lines);
    }
    forall k | k in m ensures m[k] == WordCounts(data)[k] {
      OutLinesCount(words, k);
    }
  }

  /**
   * For every file, every number of mappers and every interleaving of the mappers' output
   * lines, the reducer reads those lines back and folds them to exactly the counts of one
   * sequential pass over the file; its sums stay in the range of int exactly when every
   * count does.
   */
  lemma DistributedIsSequential(data: string, count: nat, lines: seq<string>)
    requires Splitter.Fits(|data|, count)
    requires multiset(lines) == multiset(MapperLines(Splitter.Portions(data, count, count)))
    ensures Lines(Concat(lines)) == lines && Fold(lines) == WordCounts(data)
    ensures NoOverflow(lines) <==> forall w :: w in Words(Lines(data)) ==> multiset(Words(Lines(data)))[w] < INTS
  {
    hide Words, Lines, IsOutput, OutLines, Fold, NoOverflow, Concat, Splitter.Portions, MapperLines, WordCounts;
    MappersPrintAll(data, count);
    CountsAgree(data, lines);
    LinesOfOutput(lines);
    CountsNoOverflow(lines);
    LinesPerWord(Words(Lines(data)), lines);
  }

  lemma LinesPerWord(words: seq<string>, lines: seq<string>)
    requires multiset(lines) == multiset(OutLines(words))
    ensures (forall l :: l in lines ==> multiset(lines)[l] < INTS) <==> (forall w :: w in words ==> multiset(words)[w] < INTS)
  {
    hide OutLine;
    forall w | w in words ensures OutLine(w) in lines && multiset(lines)[OutLine(w)] == multiset(words)[w] {
      OutLinesCount(words, w);
      assert OutLine(w) in multiset(lines);
    }
    forall l | l in lines ensures exists w :: w in words && l == OutLine(w) {
      assert l in multiset(lines);
      var i :| 0 <= i < |words| && OutLines(words)[i] == l;
      assert words[i] in words;
    }
  }

  // ---- Past the splitter's range ----------------------------------------------------------------------

  /** A file of empty lines but for the letter a at position p. */
  ghost predicate Lone(data: string, p: int) {
    forall k :: 0 <= k < |data| ==> data[k] == if k == p then 'a' else '\n'
  }

  lemma {:induction false} LoneWords(data: string, p: int)
    requires Lone(data, p)
    ensures Words(Lines(data)) == if 0 <= p < |data| then ["a"] else []
    decreases |data|
  {
    if data == "" {
      NoWords();
    } else {
      var n := if p == 0 && |data| > 1 then 2 else 1;
      FirstLineUnique(data, n);
      WordsStep(data);
      LoneWords(data[n..], p - n);
      LoneLine(data, p, n);
    }
  }

  lemma LoneLine(data: string, p: int, n: nat)
    requires data != "" && Lone(data, p) && n == if p == 0 && |data| > 1 then 2 else 1
    ensures LineWords(data[..n]) == if p == 0 then ["a"] else []
  {
    if p != 0 {
      assert data[..n] == "\n";
    } else {
      assert data[..n] == if |data| > 1 then "a\n" else "a";
      assert Strip(data[..n]) == "a";
      assert Replaced(CString("a")) == "a";
      assert "a"[..1] == "a";
    }
  }

  /** Once a cut has fallen back over the letter, one more portion holds it. */
  lemma {:induction false} HeldTwice(data: string, count: nat, p: nat, i: nat, k: nat)
    requires Lone(data, p) && i + 1 < count && k <= count
    requires Splitter.Cut(data, count, i + 1) <= p < Splitter.Cut(data, count, i)
    ensures multiset(Words(AllLines(Splitter.Portions(data, count, k))))["a"]
         >= (if Splitter.Cut(data, count, k) > p then 1 else 0) + (if k > i then 1 else 0)
  {
    hide Splitter.Cut, Words, Lines;
    if k == 0 {
      Splitter.NoCut(data, count);
    } else {
      HeldTwice(data, count, p, i, k - 1);
      var s, e := Splitter.Cut(data, count, k - 1), Splitter.Cut(data, count, k);
      var before, last := Splitter.Portions(data, count, k - 1), Splitter.Portion(data, count, k - 1);
      AllLinesAppend(before, last);
      WordsJoin(AllLines(before), Lines(last));
      LoneWords(last, p - s);
      assert multiset(Words(AllLines(before + [last]))) == multiset(Words(AllLines(before))) + multiset(Words(Lines(last)));
    }
  }

  lemma FallsOverLetter(data: string, count: nat, i: nat, p: nat)
    requires 0 < i && i + 1 < count < INTS && |data| < SIZES / 2
    requires |data| * i < SIZES <= |data| * (i + 1)
    requires p == Splitter.Offset(|data|, count, i + 1) + 1 && Lone(data, p)
    ensures Splitter.Cut(data, count, i + 1) <= p < Splitter.Cut(data, count, i) && p < |data|
  {
    Splitter.OffsetFallsBack(|data|, count, i);
    hide Splitter.Offset;
    var q := Splitter.Offset(|data|, count, i);
    assert Splitter.NextLine(data, p - 1) == p;
    assert Splitter.NextLine(data, q) > q;
  }

  lemma CountedTwice(length: nat, count: nat) returns (data: string)
    requires 0 < count < INTS && length < SIZES / 2 && !Splitter.Fits(length, count)
    ensures |data| == length && Fold(MapperLines(Splitter.Portions(data, count, count))) != WordCounts(data)
  {
    var i := Splitter.FirstWrap(length, count - 1);
    assert i > 0;
    hide Words, Lines, Fold, MapperLines, WordCounts, IsWord, Splitter.Fits, Splitter.Cut, Splitter.Portions, Splitter.Offset;
    var p := Splitter.Offset(length, count, i + 1) + 1;
    data := LoneFile(length, p);
    FallsOverLetter(data, count, i, p);
    HeldTwice(data, count, p, i, count);
    Splitter.NoCut(data, count);
    LoneWords(data, p);
    var portions := Splitter.Portions(data, count, count);
    MapperLinesAll(portions);
    WordsAreWords(AllLines(portions));
    MoreThanOnce(data, Words(AllLines(portions)));
  }

  lemma LoneFile(length: nat, p: nat) returns (data: string)
    ensures |data| == length && Lone(data, p)
  {
    data := seq(length, k requires 0 <= k < length => if k == p then 'a' else '\n');
  }

  lemma MoreThanOnce(data: string, words: seq<string>)
    requires Words(Lines(data)) == ["a"] && multiset(words)["a"] > 1 && forall w :: w in words ==> IsWord(w)
    ensures Fold(OutLines(words)) != WordCounts(data)
  {
    hide Words, Lines, OutLine, OutLines, Fold, IsWord, Print, Atoi;
    var n := multiset(words)["a"];
    OutLinesCount(words, "a");
    OutLinesAreOutput(words);
    FoldCounts(OutLines(words));
    assert "a" in words;
    RoundTrip(n);
    RoundTrip(1);
    assert Fold(OutLines(words))["a"] == Print(n);
    assert WordCounts(data)["a"] == Print(1);
  }

  /**
   * The lines of the mappers fold to the counts of the sequential pass, for every file of a length,
   * exactly when length * (count - 1) < 2^64.
   */
  lemma DistributedExact(length: nat, count: nat)
    requires 0 < count < INTS && length < SIZES / 2
    ensures (forall data: string :: |data| == length ==> Fold(MapperLines(Splitter.Portions(data, count, count))) == WordCounts(data))
      <==> Splitter.Fits(length, count)
  {
    hide Fold, MapperLines, WordCounts, Splitter.Portions;
    if Splitter.Fits(length, count) {
      forall data: string | |data| == length
        ensures Fold(MapperLines(Splitter.Portions(data, count, count))) == WordCounts(data)
      {
        MappersPrintAll(data, count);
        CountsAgree(data, MapperLines(Splitter.Portions(data, count, count)));
      }
    } else {
      var data := CountedTwice(length, count);
    }
  }
}
