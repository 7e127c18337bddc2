/** `TDSSolverView._extract_direct_answer`: the post-processing that turns the
    completion service's text into a single answer value.

    The text is split into lines. The first line whose lower-cased text
    contains "answer" and which holds a colon wins: the answer is what follows
    its first colon, stripped. Failing that, the shortest stripped non-blank
    line is the answer (the earliest one on ties, as Python's `min` keeps the
    first minimum). Failing that too, the text is returned unchanged. */
module DirectAnswer {
  import opened Text

  /** Non-empty text with no whitespace at either end. */
  predicate Trimmed(s: string) {
    s != [] && !IsSpace(s[0]) && !IsSpace(s[|s| - 1])
  }

  /** A line that announces the answer: lower-cased it contains "answer", and
      it holds a colon. */
  predicate Qualifies(line: string) {
    Contains(Lower(line), "answer") && ':' in line
  }

  /** `line.split(":", 1)[1]`: everything after the first colon, later colons
      included. */
  function AfterFirstColon(line: string): (rest: string)
    requires ':' in line
    ensures |rest| < |line|
    ensures line == line[..|line| - |rest| - 1] + ":" + rest
    ensures ':' !in line[..|line| - |rest| - 1]
    decreases |line|
  {
    if line[0] == ':' then line[1..]
    else
      assert line == [line[0]] + line[1..];
      var rest := AfterFirstColon(line[1..]);
      assert line[..|line| - |rest| - 1] == [line[0]] + line[1..][..|line| - 1 - |rest| - 1];
      rest
  }

  /** Splitting at the first colon gives back exactly what followed it: the
      text before it holds no colon, the text after it may. */
  lemma {:induction false} AfterFirstColonOf(before: string, after: string)
    requires ':' !in before
    ensures AfterFirstColon(before + ":" + after) == after
    decreases |before|
  {
    var line := before + ":" + after;
    if before != [] {
      assert line[1..] == before[1..] + ":" + after;
      AfterFirstColonOf(before[1..], after);
    }
  }

  /** The index of the first answer line, or `|lines|` when there is none:
      the `for` loop with its early `return`. */
  function FirstQualifying(lines: seq<string>): (k: nat)
    ensures k <= |lines|
    ensures forall j :: 0 <= j < k ==> !Qualifies(lines[j])
    ensures k < |lines| ==> Qualifies(lines[k])
    decreases |lines|
  {
    if |lines| == 0 then 0
    else if Qualifies(lines[0]) then 0
    else 1 + FirstQualifying(lines[1..])
  }

  /** The lines, each stripped, keeping only those that are not empty after
      stripping, in their original order. */
  function NonBlank(lines: seq<string>): (candidates: seq<string>)
    decreases |lines|
  {
    if |lines| == 0 then []
    else
      var line := Strip(lines[0]);
      var rest := NonBlank(lines[1..]);
      if line != [] then [line] + rest else rest
  }

  /** The candidates are non-empty, carry no surrounding whitespace, and
      there are none exactly when every line is blank. */
  lemma {:induction false} NonBlankShape(lines: seq<string>)
    ensures forall m :: 0 <= m < |NonBlank(lines)| ==> Trimmed(NonBlank(lines)[m])
    ensures NonBlank(lines) == [] <==> forall i :: 0 <= i < |lines| ==> Strip(lines[i]) == []
    decreases |lines|
  {
    if |lines| > 0 {
      NonBlankShape(lines[1..]);
      assert forall i :: 1 <= i < |lines| ==> lines[i] == lines[1..][i - 1];
    }
  }

  /** `min(candidates, key=len)` as an index: Python's `min` scans left to
      right and replaces its current pick only by a strictly shorter string,
      so the result is the earliest of the shortest. */
  function ShortestIndex(candidates: seq<string>): (k: nat)
    requires |candidates| > 0
    ensures k < |candidates|
    ensures forall j :: 0 <= j < |candidates| ==> |candidates[k]| <= |candidates[j]|
    ensures forall j :: 0 <= j < k ==> |candidates[k]| < |candidates[j]|
    decreases |candidates|
  {
    if |candidates| == 1 then 0
    else
      var last := |candidates| - 1;
      var k := ShortestIndex(candidates[..last]);
      assert forall j :: 0 <= j < last ==> candidates[..last][j] == candidates[j];
      if |candidates[last]| < |candidates[k]| then last else k
  }

  /** `_extract_direct_answer(answer, question)`; the source never reads the
      question, so the model leaves it out. The result is either the input
      untouched or text with no surrounding whitespace. */
  function ExtractDirectAnswer(answer: string): (r: string)
    ensures r == answer || r == [] || Trimmed(r)
  {
    var lines := Split(answer);
    var k := FirstQualifying(lines);
    if k < |lines| then Strip(AfterFirstColon(lines[k]))
    else
      var candidates := NonBlank(lines);
      NonBlankShape(lines);
      if |candidates| > 0 then candidates[ShortestIndex(candidates)] else answer
  }

  /** The earliest-shortest pick is the only index with its two properties. */
  lemma ShortestIndexUnique(candidates: seq<string>, k: nat)
    requires k < |candidates|
    requires forall j :: 0 <= j < |candidates| ==> |candidates[k]| <= |candidates[j]|
    requires forall j :: 0 <= j < k ==> |candidates[k]| < |candidates[j]|
    ensures ShortestIndex(candidates) == k
  {
    var s := ShortestIndex(candidates);
    assert !(s < k) && !(k < s);
  }

  /** Answer-line branch: when line `i` is the first answer line, the result
      is the stripped text after its first colon. */
  lemma AnswerLineWins(answer: string, i: nat)
    requires i < |Split(answer)| && Qualifies(Split(answer)[i])
    requires forall j :: 0 <= j < i ==> !Qualifies(Split(answer)[j])
    ensures ExtractDirectAnswer(answer) == Strip(AfterFirstColon(Split(answer)[i]))
  {
    var lines := Split(answer);
    var k := FirstQualifying(lines);
    assert !(k < i) && !(i < k);
  }

  /** First-match precedence: once the text `a` has an answer line, nothing
      on the lines that follow it changes the result. */
  lemma LaterLinesIgnored(a: string, b: string)
    requires exists i :: 0 <= i < |Split(a)| && Qualifies(Split(a)[i])
    ensures ExtractDirectAnswer(a + "\n" + b) == ExtractDirectAnswer(a)
  {
    var front := Split(a);
    SplitAtNewline(a, b);
    var lines := Split(a + "\n" + b);
    assert lines == front + Split(b);
    var k := FirstQualifying(front);
    assert k < |front|;
    assert lines[k] == front[k];
    forall j | 0 <= j < k ensures !Qualifies(lines[j]) {
      assert lines[j] == front[j];
    }
    AnswerLineWins(a + "\n" + b, k);
    AnswerLineWins(a, k);
  }

  /** How many of the first `j` lines are non-blank. */
  function Rank(lines: seq<string>, j: nat): (n: nat)
    requires j <= |lines|
  {
    |NonBlank(lines[..j])|
  }

  /** Filtering distributes over concatenation. */
  lemma {:induction false} NonBlankAppend(a: seq<string>, b: seq<string>)
    ensures NonBlank(a + b) == NonBlank(a) + NonBlank(b)
    decreases |a|
  {
    if |a| == 0 {
      assert a + b == b;
    } else {
      assert (a + b)[0] == a[0] && (a + b)[1..] == a[1..] + b;
      NonBlankAppend(a[1..], b);
    }
  }

  /** Every non-blank line appears, stripped, among the candidates, at the
      position given by the number of non-blank lines before it. */
  lemma NonBlankAt(lines: seq<string>, j: nat)
    requires j < |lines| && Strip(lines[j]) != []
    ensures Rank(lines, j) < |NonBlank(lines)|
    ensures NonBlank(lines)[Rank(lines, j)] == Strip(lines[j])
  {
    assert lines == lines[..j] + lines[j..];
    NonBlankAppend(lines[..j], lines[j..]);
    assert lines[j..][1..] == lines[j + 1..];
  }

  /** A non-blank line before line `j'` has a smaller count than `j'`. */
  lemma RankIncreases(lines: seq<string>, j: nat, j': nat)
    requires j < j' <= |lines| && Strip(lines[j]) != []
    ensures Rank(lines, j) < Rank(lines, j')
  {
    assert lines[..j'] == lines[..j] + lines[j..j'];
    NonBlankAppend(lines[..j], lines[j..j']);
    assert lines[j..j'] == [lines[j]] + lines[j..j'][1..];
  }

  /** Every candidate comes from some non-blank line: the one with exactly
      that many non-blank lines before it. */
  lemma {:induction false} RankReaches(lines: seq<string>, k: nat)
    requires k < |NonBlank(lines)|
    ensures exists i :: 0 <= i < |lines| && Strip(lines[i]) != [] && Rank(lines, i) == k
    decreases |lines|
  {
    var first := if Strip(lines[0]) != [] then 1 else 0;
    assert lines[..0] == [];
    if first == 1 && k == 0 {
      assert Rank(lines, 0) == 0;
    } else {
      RankReaches(lines[1..], k - first);
      var i :| 0 <= i < |lines[1..]| && Strip(lines[1..][i]) != [] && Rank(lines[1..], i) == k - first;
      assert lines[..i + 1] == [lines[0]] + lines[1..][..i];
      NonBlankAppend([lines[0]], lines[1..][..i]);
      assert Rank(lines, i + 1) == k;
    }
  }

  /** Shortest-line branch: with no answer line and some non-blank line, the
      result is one of the stripped non-blank lines, no longer than any other,
      strictly shorter than every non-blank line before it, and free of
      surrounding whitespace. */
  lemma ShortestLineWins(answer: string)
    requires forall i :: 0 <= i < |Split(answer)| ==> !Qualifies(Split(answer)[i])
    requires exists i :: 0 <= i < |Split(answer)| && Strip(Split(answer)[i]) != []
    ensures var r := ExtractDirectAnswer(answer);
      && Trimmed(r)
      && (forall j :: 0 <= j < |Split(answer)| && Strip(Split(answer)[j]) != [] ==>
            |r| <= |Strip(Split(answer)[j])|)
      && exists i :: 0 <= i < |Split(answer)| && r == Strip(Split(answer)[i])
           && forall j :: 0 <= j < i && Strip(Split(answer)[j]) != [] ==>
                |r| < |Strip(Split(answer)[j])|
  {
    var lines := Split(answer);
    NonBlankShape(lines);
    assert FirstQualifying(lines) == |lines|;
    ShortestOfLines(lines);
  }

  /** The earliest-shortest candidate, stated over the lines themselves. */
  lemma ShortestOfLines(lines: seq<string>)
    requires NonBlank(lines) != []
    ensures var candidates := NonBlank(lines);
      var r := candidates[ShortestIndex(candidates)];
      && Trimmed(r)
      && (forall j :: 0 <= j < |lines| && Strip(lines[j]) != [] ==> |r| <= |Strip(lines[j])|)
      && exists i :: 0 <= i < |lines| && r == Strip(lines[i])
           && forall j :: 0 <= j < i && Strip(lines[j]) != [] ==> |r| < |Strip(lines[j])|
  {
    var candidates := NonBlank(lines);
    NonBlankShape(lines);
    var k := ShortestIndex(candidates);
    var r := candidates[k];
    RankReaches(lines, k);
    var i :| 0 <= i < |lines| && Strip(lines[i]) != [] && Rank(lines, i) == k;
    NonBlankAt(lines, i);
    forall j | 0 <= j < |lines| && Strip(lines[j]) != []
      ensures |r| <= |Strip(lines[j])|
    {
      NonBlankAt(lines, j);
    }
    forall j | 0 <= j < i && Strip(lines[j]) != []
      ensures |r| < |Strip(lines[j])|
    {
      NonBlankAt(lines, j);
      RankIncreases(lines, j, i);
    }
  }

  /** Whitespace-only pieces join to whitespace-only text. */
  lemma {:induction false} JoinAllSpace(parts: seq<string>)
    requires |parts| >= 1
    requires forall i :: 0 <= i < |parts| ==> AllSpace(parts[i])
    ensures AllSpace(Join(parts))
    decreases |parts|
  {
    if |parts| > 1 {
      JoinAllSpace(parts[1..]);
      var tail := Join(parts[1..]);
      var s := parts[0] + "\n" + tail;
      forall k | 0 <= k < |s| ensures IsSpace(s[k]) {
        if k < |parts[0]| {
          assert s[k] == parts[0][k];
        } else if k > |parts[0]| {
          assert s[k] == tail[k - |parts[0]| - 1];
        }
      }
    }
  }

  /** Whitespace-only text splits into blank lines only. */
  lemma BlankTextBlankLines(answer: string)
    requires AllSpace(answer)
    ensures forall i :: 0 <= i < |Split(answer)| ==> AllSpace(Split(answer)[i])
  {
    var lines := Split(answer);
    SplitChars(answer);
    forall i | 0 <= i < |lines| ensures AllSpace(lines[i]) {
      forall k | 0 <= k < |lines[i]| ensures IsSpace(lines[i][k]) {
        AllSpaceMember(answer, lines[i][k]);
      }
    }
  }

  /** Every line strips to nothing exactly when the whole text is
      whitespace; this is when the fallback branch is taken. */
  lemma AllLinesBlankIff(answer: string)
    ensures (forall i :: 0 <= i < |Split(answer)| ==> Strip(Split(answer)[i]) == [])
      <==> AllSpace(answer)
  {
    var lines := Split(answer);
    if AllSpace(answer) {
      BlankTextBlankLines(answer);
      assert forall i :: 0 <= i < |lines| ==> Strip(lines[i]) == [];
    } else if forall i :: 0 <= i < |lines| ==> Strip(lines[i]) == [] {
      forall i | 0 <= i < |lines| ensures AllSpace(lines[i]) {
        assert Strip(lines[i]) == [];
      }
      JoinAllSpace(lines);
      JoinSplit(answer);
      assert false;
    } else {
      var i :| 0 <= i < |lines| && Strip(lines[i]) != [];
      assert Strip(Split(answer)[i]) != [];
    }
  }

  /** Fallback branch: whitespace-only text (the empty text included) comes
      back unchanged. */
  lemma BlankTextUnchanged(answer: string)
    requires AllSpace(answer)
    ensures ExtractDirectAnswer(answer) == answer
  {
    var lines := Split(answer);
    BlankTextBlankLines(answer);
    forall i | 0 <= i < |lines| ensures !Qualifies(lines[i]) && Strip(lines[i]) == [] {
      assert AllSpace(lines[i]);
      assert forall k :: 0 <= k < |lines[i]| ==> lines[i][k] != ':';
    }
    assert FirstQualifying(lines) == |lines|;
    NonBlankShape(lines);
    assert NonBlank(lines) == [];
  }

  /** A line "<heading>:<value>" whose heading mentions the answer is an
      answer line. */
  lemma HeadingQualifies(heading: string, value: string)
    requires Contains(Lower(heading), "answer")
    ensures Qualifies(heading + ":" + value)
  {
    var line := heading + ":" + value;
    var i :| 0 <= i <= |Lower(heading)| - 6 && "answer" <= Lower(heading)[i..];
    assert Lower(heading)[i..i + 6] == "answer";
    assert Lower(line)[i..i + 6] == Lower(heading)[i..i + 6];
    assert "answer" <= Lower(line)[i..];
    assert line[|heading|] == ':';
  }

  /** A one-line reply "<heading>:<value>" whose heading mentions the answer
      yields the stripped value. */
  lemma SingleAnswerLine(heading: string, value: string)
    requires '\n' !in heading && '\n' !in value && ':' !in heading
    requires Contains(Lower(heading), "answer")
    ensures ExtractDirectAnswer(heading + ":" + value) == Strip(value)
  {
    var line := heading + ":" + value;
    assert '\n' !in line;
    SplitSingleLine(line);
    HeadingQualifies(heading, value);
    AfterFirstColonOf(heading, value);
    AnswerLineWins(line, 0);
  }

  /** Lines that are already stripped and non-empty pass the filter
      unchanged. */
  lemma {:induction false} NonBlankOfTrimmed(lines: seq<string>)
    requires forall i :: 0 <= i < |lines| ==> Trimmed(lines[i])
    ensures NonBlank(lines) == lines
    decreases |lines|
  {
    if |lines| > 0 {
      StripUnchanged(lines[0]);
      NonBlankOfTrimmed(lines[1..]);
    }
  }

  /** A reply whose lines hold no colon and are already stripped yields its
      earliest shortest line. */
  lemma PlainLinesPickShortest(answer: string)
    requires forall i :: 0 <= i < |Split(answer)| ==> ':' !in Split(answer)[i] && Trimmed(Split(answer)[i])
    ensures ExtractDirectAnswer(answer) == Split(answer)[ShortestIndex(Split(answer))]
  {
    var lines := Split(answer);
    assert FirstQualifying(lines) == |lines|;
    NonBlankOfTrimmed(lines);
  }

  /** "The answer" mentions the answer. */
  lemma ExampleHeading()
    ensures Contains(Lower("The answer"), "answer")
  {
    assert Lower("The answer")[4..] == "answer";
  }

  /** " 42" strips to "42". */
  lemma ExampleValue()
    ensures Strip(" 42") == "42"
  {
    assert " 42"[1..] == "42";
  }

  /** "The answer: 42" gives "42". */
  lemma AnswerLineExample()
    ensures ExtractDirectAnswer("The answer" + ":" + " 42") == "42"
  {
    ExampleHeading();
    ExampleValue();
    SingleAnswerLine("The answer", " 42");
  }

  /** "ANSWER" mentions the answer once lower-cased. */
  lemma ExampleUpperHeading()
    ensures Contains(Lower("ANSWER"), "answer")
  {
    assert Lower("ANSWER")[0..] == "answer";
  }

  /** " 10:30" strips to "10:30". */
  lemma ExampleTime()
    ensures Strip(" 10:30") == "10:30"
  {
    assert " 10:30"[1..] == "10:30";
  }

  /** Later colons on the answer line stay in the result:
      "ANSWER: 10:30" gives "10:30". */
  lemma LaterColonsKeptExample()
    ensures ExtractDirectAnswer("ANSWER" + ":" + " 10:30") == "10:30"
  {
    ExampleUpperHeading();
    ExampleTime();
    SingleAnswerLine("ANSWER", " 10:30");
  }

  /** Three line-feed-free pieces joined by line feeds split back into the
      same three lines. */
  lemma ThreeLines(first: string, second: string, third: string)
    requires '\n' !in first && '\n' !in second && '\n' !in third
    ensures Split(first + "\n" + second + "\n" + third) == [first, second, third]
  {
    assert first + "\n" + second + "\n" + third == first + "\n" + (second + "\n" + third);
    SplitAtNewline(first, second + "\n" + third);
    SplitAtNewline(second, third);
    SplitSingleLine(first);
    SplitSingleLine(second);
    SplitSingleLine(third);
  }

  /** Three plain lines, the middle one strictly shorter than the first and
      no longer than the third: the middle one is the answer. */
  lemma MiddleLineShortest(first: string, second: string, third: string)
    requires '\n' !in first && '\n' !in second && '\n' !in third
    requires ':' !in first && ':' !in second && ':' !in third
    requires Trimmed(first) && Trimmed(second) && Trimmed(third)
    requires |second| < |first| && |second| <= |third|
    ensures ExtractDirectAnswer(first + "\n" + second + "\n" + third) == second
  {
    var answer := first + "\n" + second + "\n" + third;
    ThreeLines(first, second, third);
    var lines := [first, second, third];
    PlainLinesPickShortest(answer);
    ShortestIndexUnique(lines, 1);
  }

  /** "Line one.\nOK\nAnother longer line." gives "OK". */
  lemma ShortestLineExample()
    ensures ExtractDirectAnswer("Line one." + "\n" + "OK" + "\n" + "Another longer line.") == "OK"
  {
    MiddleLineShortest("Line one.", "OK", "Another longer line.");
  }

  /** Whitespace-only text and the empty text come back unchanged. */
  lemma BlankExample()
    ensures ExtractDirectAnswer(" \t ") == " \t "
    ensures ExtractDirectAnswer("") == ""
  {
    BlankTextUnchanged(" \t ");
    BlankTextUnchanged("");
  }

  /** The reply as `_generate_answer` returns it: the completion text is
      stripped and then passed through `ExtractDirectAnswer`. Whatever the
      reply, the answer is empty or carries no surrounding whitespace, and a
      blank reply gives the empty answer. */
  function CleanAnswer(reply: string): (r: string)
    ensures r == [] || Trimmed(r)
    ensures AllSpace(reply) ==> r == []
  {
    BlankReplyEmpty(reply);
    ExtractDirectAnswer(Strip(reply))
  }

  /** A blank reply strips to "", which extraction returns unchanged. */
  lemma BlankReplyEmpty(reply: string)
    ensures AllSpace(reply) ==> ExtractDirectAnswer(Strip(reply)) == []
  {
    if AllSpace(reply) {
      BlankTextUnchanged(Strip(reply));
    }
  }
}
