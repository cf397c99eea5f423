/**
 * The test firmware's report over the UART: one comma-separated line per
 * check (`component,result[,log...]`), a line containing `END` when the
 * checks are over, and a final verdict read from that last line. The
 * serial port is a finite sequence of byte lines; its running out stands
 * for the 30-second budget of the reading loop.
 */
module UartProtocol {
  import opened Text

  type Byte = b: int | 0 <= b < 256

  datatype TestResult = Pass | Fail

  /** The dictionary `get_test_dict` builds, one per reported check. */
  datatype TestRecord = TestRecord(systemComponent: string, testResult: TestResult, testType: string, logs: string)

  /** Every check the jig reports is a board-level test. */
  const BoardTest: string := "Board"

  /** The firmware's end-of-report marker. */
  const EndMarker: string := "END"

  /** `get_test_dict(words)`. */
  function GetTestDict(words: seq<string>): TestRecord
    requires |words| >= 2
  {
    TestRecord(
      words[0],
      if '1' in words[1] then Pass else Fail,
      BoardTest,
      if |words| == 2 then "" else StripLineBreaks(Concat(words[2..])))
  }

  /**
   * The component is the first field; the check passed exactly when a `1`
   * appears in the second; the logs hold no line boundary, and are empty
   * exactly when there are no further fields or they hold nothing but line
   * boundaries. Which text they are is `StripLineBreaks` of the further
   * fields run together, which `Text.StripLineBreaksAppend` and
   * `Text.StripLineBreaksChar` determine character by character
   * (`LineResultsExample` shows a line ending in `\n`).
   */
  lemma GetTestDictSpec(words: seq<string>)
    requires |words| >= 2
    ensures GetTestDict(words).systemComponent == words[0]
    ensures GetTestDict(words).testResult == Pass <==> '1' in words[1]
    ensures GetTestDict(words).testType == "Board"
    ensures forall c :: c in GetTestDict(words).logs ==> !IsLineBreak(c)
    ensures GetTestDict(words).logs == "" <==>
      |words| == 2 || forall c :: c in Concat(words[2..]) ==> IsLineBreak(c)
    ensures |words| > 2 && (forall c :: c in Concat(words[2..]) ==> !IsLineBreak(c)) ==>
      GetTestDict(words).logs == Concat(words[2..])
  {
    if |words| > 2 {
      StripLineBreaksSpec(Concat(words[2..]));
    }
  }

  /** `len(line.split(',')) > 1`: the line reports a check. */
  function LineResults(text: string): seq<TestRecord>
  {
    var words := Split(text, ',');
    if |words| > 1 then [GetTestDict(words)] else []
  }

  /** The fields of a check line: the newline `readline` keeps stays in the last one. */
  lemma SplitCheckLine()
    ensures Split("temp,1,ok\n", ',') == ["temp", "1", "ok\n"]
  {
    SplitThree("temp", "1", "ok\n", ',');
    assert "temp" + [','] + "1" + [','] + "ok\n" == "temp,1,ok\n";
  }

  /** The logs of that line lose the newline and keep the text. */
  lemma StripCheckLog()
    ensures StripLineBreaks("ok\n") == "ok"
  {
    StripLineBreaksAppend("ok", "\n");
    StripLineBreaksSpec("ok");
    StripLineBreaksChar('\n');
  }

  /** A line as `readline` delivers it, its newline included: the logs keep the text and lose the newline. */
  lemma LineResultsExample()
    ensures LineResults("temp,1,ok\n") == [TestRecord("temp", Pass, "Board", "ok")]
  {
    SplitCheckLine();
    StripCheckLog();
    var words: seq<string> := ["temp", "1", "ok\n"];
    assert Concat(words[2..]) == "ok\n";
  }

  /** A line yields a record exactly when it holds a comma; the component is what precedes the first one. */
  lemma LineResultsSpec(text: string)
    ensures |LineResults(text)| == (if ',' in text then 1 else 0)
    ensures ',' in text ==> LineResults(text)[0].systemComponent == TakeUntil(text, {','})
  {
    SplitMany(text, ',');
    SplitFirst(text, ',');
  }

  /** `str(line, 'ascii')` succeeds exactly on bytes below 128. */
  predicate IsAscii(line: seq<Byte>)
  {
    forall i :: 0 <= i < |line| ==> line[i] < 128
  }

  /** The text of a line, one character per byte. */
  function AsciiText(line: seq<Byte>): (r: string)
    ensures |r| == |line|
  {
    seq(|line|, i requires 0 <= i < |line| => line[i] as char)
  }

  /** Each character of the text has the code of the byte in its place. */
  lemma AsciiTextCodes(line: seq<Byte>)
    ensures forall i :: 0 <= i < |line| ==> AsciiText(line)[i] as int == line[i]
  {
  }

  /** Decoding loses nothing: different lines have different texts. */
  lemma AsciiTextInjective(a: seq<Byte>, b: seq<Byte>)
    requires AsciiText(a) == AsciiText(b)
    ensures a == b
  {
    assert |a| == |b|;
    AsciiTextCodes(a);
    AsciiTextCodes(b);
    forall i | 0 <= i < |a| ensures a[i] == b[i] {
      assert AsciiText(a)[i] == AsciiText(b)[i];
    }
  }

  /** Where reading stops: the first line that cannot be decoded or that carries the end marker. */
  function Stop(lines: seq<seq<Byte>>): nat
  {
    if |lines| == 0 then 0
    else if !IsAscii(lines[0]) || Contains(AsciiText(lines[0]), EndMarker) then 0
    else 1 + Stop(lines[1..])
  }

  lemma {:induction false} StopSpec(lines: seq<seq<Byte>>)
    ensures Stop(lines) <= |lines|
    ensures forall j :: 0 <= j < Stop(lines) ==>
      IsAscii(lines[j]) && !Contains(AsciiText(lines[j]), EndMarker)
    ensures Stop(lines) < |lines| ==>
      !IsAscii(lines[Stop(lines)]) || Contains(AsciiText(lines[Stop(lines)]), EndMarker)
  {
    if |lines| > 0 && IsAscii(lines[0]) && !Contains(AsciiText(lines[0]), EndMarker) {
      StopSpec(lines[1..]);
      forall j | 0 <= j < Stop(lines)
        ensures IsAscii(lines[j]) && !Contains(AsciiText(lines[j]), EndMarker)
      {
        if j > 0 {
          assert lines[j] == lines[1..][j - 1];
        }
      }
    }
  }

  /** Any index where the description of `Stop` holds is `Stop`. */
  lemma StopUnique(lines: seq<seq<Byte>>, k: nat)
    requires k <= |lines|
    requires forall j :: 0 <= j < k ==> IsAscii(lines[j]) && !Contains(AsciiText(lines[j]), EndMarker)
    requires k < |lines| ==> !IsAscii(lines[k]) || Contains(AsciiText(lines[k]), EndMarker)
    ensures Stop(lines) == k
  {
    StopSpec(lines);
  }

  /** The records of the lines read, in arrival order. */
  function Results(lines: seq<seq<Byte>>): seq<TestRecord>
  {
    if |lines| == 0 then [] else Results(lines[..|lines| - 1]) + LineResults(AsciiText(lines[|lines| - 1]))
  }

  /** Reading more lines only appends records: the records of two runs of lines, one after the other. */
  lemma {:induction false} ResultsAppend(a: seq<seq<Byte>>, b: seq<seq<Byte>>)
    ensures Results(a + b) == Results(a) + Results(b)
    decreases |b|
  {
    if |b| > 0 {
      var ab := a + b;
      var front := b[..|b| - 1];
      var last := LineResults(AsciiText(b[|b| - 1]));
      assert ab[..|ab| - 1] == a + front;
      assert ab[|ab| - 1] == b[|b| - 1];
      ResultsAppend(a, front);
      calc {
        Results(ab);
        Results(a + front) + last;
        (Results(a) + Results(front)) + last;
        Results(a) + (Results(front) + last);
      }
    } else {
      assert a + b == a;
    }
  }

  /** One record per line holding a comma, none for any other line. */
  lemma {:induction false} ResultsCount(lines: seq<seq<Byte>>)
    ensures |Results(lines)| <= |lines|
    ensures (forall j :: 0 <= j < |lines| ==> ',' !in AsciiText(lines[j])) ==> Results(lines) == []
    ensures (forall j :: 0 <= j < |lines| ==> ',' in AsciiText(lines[j])) ==> |Results(lines)| == |lines|
  {
    if |lines| > 0 {
      var p := lines[..|lines| - 1];
      ResultsCount(p);
      LineResultsSpec(AsciiText(lines[|lines| - 1]));
      assert forall j :: 0 <= j < |p| ==> p[j] == lines[j];
    }
  }

  /** How a reading ends. */
  datatype Reading =
    | Completed(linesRead: nat, lastLine: string, tests: seq<TestRecord>)
    | Undecodable(index: nat)   // `str(_, 'ascii')` raised on this line

  /**
   * What the reading loop of `test()` gets from the port: lines up to and
   * including the first carrying `END`, or every line when none does.
   */
  function ReadSession(lines: seq<seq<Byte>>): Reading
  {
    var k := Stop(lines);
    if k < |lines| && !IsAscii(lines[k]) then Undecodable(k)
    else
      var n := if k < |lines| then k + 1 else |lines|;
      Completed(n, if n == 0 then "" else AsciiText(lines[n - 1]), Results(lines[..n]))
  }

  /** One more line read: its record, if any, comes last. */
  lemma ResultsStep(lines: seq<seq<Byte>>, i: nat)
    requires i < |lines|
    ensures Results(lines[..i + 1]) == Results(lines[..i]) + LineResults(AsciiText(lines[i]))
  {
    assert lines[..i + 1][..i] == lines[..i];
  }

  /**
   * What the reading loop of `test()` knows after `i` lines: they were all
   * decodable, none before the last carried the marker, `lastLine` is the
   * last of them and `tests` holds their records.
   */
  predicate Progress(lines: seq<seq<Byte>>, i: nat, lastLine: string, tests: seq<TestRecord>)
  {
    i <= |lines|
    && (forall j :: 0 <= j < i ==> IsAscii(lines[j]))
    && (if Contains(lastLine, EndMarker) then i == Stop(lines) + 1 else i <= Stop(lines))
    && lastLine == (if i == 0 then "" else AsciiText(lines[i - 1]))
    && tests == Results(lines[..i])
  }

  lemma ProgressStart(lines: seq<seq<Byte>>)
    ensures Progress(lines, 0, "", [])
  {
    assert lines[..0] == [];
  }

  /** Reading one more decodable line, while no marker has been seen, keeps the loop's knowledge. */
  lemma ProgressStep(lines: seq<seq<Byte>>, i: nat, lastLine: string, tests: seq<TestRecord>)
    requires Progress(lines, i, lastLine, tests)
    requires !Contains(lastLine, EndMarker) && i < |lines| && IsAscii(lines[i])
    ensures var text := AsciiText(lines[i]); var words := Split(text, ',');
      Progress(lines, i + 1, text, if |words| > 1 then tests + [GetTestDict(words)] else tests)
  {
    StopSpec(lines);
    ResultsStep(lines, i);
    if Contains(AsciiText(lines[i]), EndMarker) {
      assert i == Stop(lines);
    }
  }

  /** Meeting an undecodable line while no marker has been seen: the reading fails there. */
  lemma ProgressUndecodable(lines: seq<seq<Byte>>, i: nat, lastLine: string, tests: seq<TestRecord>)
    requires Progress(lines, i, lastLine, tests)
    requires !Contains(lastLine, EndMarker) && i < |lines| && !IsAscii(lines[i])
    ensures ReadSession(lines) == Undecodable(i)
  {
    StopSpec(lines);
    assert Stop(lines) == i;
  }

  /** Leaving the loop, at the marker or at the end of the lines: the reading is complete. */
  lemma ProgressDone(lines: seq<seq<Byte>>, i: nat, lastLine: string, tests: seq<TestRecord>)
    requires Progress(lines, i, lastLine, tests)
    requires Contains(lastLine, EndMarker) || i == |lines|
    ensures ReadSession(lines) == Completed(i, lastLine, tests)
  {
    var k := Stop(lines);
    if Contains(lastLine, EndMarker) {
      assert k < |lines| && IsAscii(lines[k]);
      CompletedAtMarker(lines);
    } else {
      assert k == |lines| by {
        StopSpec(lines);
      }
      CompletedAtEnd(lines);
    }
  }

  /**
   * The reading loop of `test()`: read a line while none so far carried
   * `END` and the budget lasts; keep the record of every line holding a
   * comma.
   */
  method ReadLines(lines: seq<seq<Byte>>) returns (r: Reading)
    ensures r == ReadSession(lines)
  {
    var lastLine := "";
    var tests: seq<TestRecord> := [];
    var i := 0;
    ProgressStart(lines);
    while !Contains(lastLine, EndMarker) && i < |lines|
      invariant Progress(lines, i, lastLine, tests)
      decreases |lines| - i
    {
      var line := lines[i];
      if !IsAscii(line) {
        ProgressUndecodable(lines, i, lastLine, tests);
        return Undecodable(i);
      }
      ProgressStep(lines, i, lastLine, tests);
      lastLine := AsciiText(line);
      var words := Split(lastLine, ',');
      if |words| > 1 {
        tests := tests + [GetTestDict(words)];
      }
      i := i + 1;
    }
    ProgressDone(lines, i, lastLine, tests);
    r := Completed(i, lastLine, tests);
  }

  /** The board passed exactly when the last line read holds a `1`. */
  predicate Verdict(r: Reading)
    requires r.Completed?
  {
    '1' in r.lastLine
  }

  /** The verdict is Python's substring test `"1" in last_line`. */
  lemma VerdictSubstring(r: Reading)
    requires r.Completed?
    ensures Verdict(r) <==> Contains(r.lastLine, "1")
  {
    ContainsIff(r.lastLine, "1");
    if Verdict(r) {
      var i :| 0 <= i < |r.lastLine| && r.lastLine[i] == '1';
      assert OccursAt(r.lastLine, "1", i);
    }
    if Occurs(r.lastLine, "1") {
      var i: nat :| OccursAt(r.lastLine, "1", i);
      assert r.lastLine[i] == r.lastLine[i..i + 1][0];
    }
  }

  /**
   * A completed reading of `n` lines took a prefix of the lines, all
   * decodable; only its last line may carry `END`, and it does unless the
   * lines ran out; it read nothing only when there was nothing to read.
   */
  predicate CompletedOn(lines: seq<seq<Byte>>, n: nat, lastLine: string, tests: seq<TestRecord>)
  {
    n <= |lines|
    && (forall j :: 0 <= j < n ==> IsAscii(lines[j]))
    && (forall j :: 0 <= j < n - 1 ==> !Contains(AsciiText(lines[j]), EndMarker))
    && (n < |lines| ==> Contains(lastLine, EndMarker))
    && (n == 0 <==> |lines| == 0)
    && lastLine == (if n == 0 then "" else AsciiText(lines[n - 1]))
    && tests == Results(lines[..n])
  }

  /**
   * What `ReadSession` returns, described without `Stop`: a completed
   * reading is `CompletedOn` the lines; a failed reading names the first
   * undecodable line, before any `END`.
   */
  lemma ReadSessionSpec(lines: seq<seq<Byte>>)
    ensures var r := ReadSession(lines);
      r.Completed? ==> CompletedOn(lines, r.linesRead, r.lastLine, r.tests)
    ensures var r := ReadSession(lines);
      r.Undecodable? ==>
        r.index < |lines| && !IsAscii(lines[r.index])
        && forall j :: 0 <= j < r.index ==> IsAscii(lines[j]) && !Contains(AsciiText(lines[j]), EndMarker)
  {
    StopSpec(lines);
    var k := Stop(lines);
    if k < |lines| && !IsAscii(lines[k]) {
      assert ReadSession(lines) == Undecodable(k);
    } else if k < |lines| {
      CompletedAtMarker(lines);
    } else {
      CompletedAtEnd(lines);
    }
  }

  /** Reading stopped at a decodable line: it carries `END` and is the last line read. */
  lemma CompletedAtMarker(lines: seq<seq<Byte>>)
    requires Stop(lines) < |lines| && IsAscii(lines[Stop(lines)])
    ensures var k := Stop(lines);
      ReadSession(lines) == Completed(k + 1, AsciiText(lines[k]), Results(lines[..k + 1]))
    ensures var r := ReadSession(lines);
      r.Completed? && CompletedOn(lines, r.linesRead, r.lastLine, r.tests)
  {
    var k := Stop(lines);
    MarkerPrefix(lines, k);
    assert ReadSession(lines) == Completed(k + 1, AsciiText(lines[k]), Results(lines[..k + 1]));
  }

  /** The lines up to and including the one carrying `END`, as a completed reading takes them. */
  lemma MarkerPrefix(lines: seq<seq<Byte>>, k: nat)
    requires k == Stop(lines) && k < |lines| && IsAscii(lines[k])
    ensures CompletedOn(lines, k + 1, AsciiText(lines[k]), Results(lines[..k + 1]))
  {
    StopSpec(lines);
    forall j | 0 <= j < k + 1
      ensures IsAscii(lines[j])
    {
      if j < k {
        assert IsAscii(lines[j]) && !Contains(AsciiText(lines[j]), EndMarker);
      }
    }
  }

  /** Reading ran out of lines: every line was read. */
  lemma CompletedAtEnd(lines: seq<seq<Byte>>)
    requires Stop(lines) >= |lines|
    ensures var r := ReadSession(lines);
      r.Completed? && r.linesRead == |lines| && CompletedOn(lines, r.linesRead, r.lastLine, r.tests)
  {
    StopSpec(lines);
    assert ReadSession(lines).linesRead == |lines|;
  }

  /** With no line at all (the port stayed silent for the whole budget) the board fails with no record. */
  lemma SilentPortFails()
    ensures ReadSession([]) == Completed(0, "", []) && !Verdict(ReadSession([]))
  {
  }

  const CommaCode: Byte := 44
  const NewlineCode: Byte := 10

  /** A line that is a check report, `m`, a comma, `1`, newline. */
  const PassingCheck: seq<Byte> := [109, CommaCode, 49, NewlineCode]

  /** The closing line `END1` and a newline. */
  const PassingEnd: seq<Byte> := [69, 78, 68, 49, NewlineCode]

  lemma PassingCheckText()
    ensures AsciiText(PassingCheck) == "m,1\n" && IsAscii(PassingCheck)
  {
  }

  lemma PassingEndText()
    ensures AsciiText(PassingEnd) == "END1\n" && IsAscii(PassingEnd)
  {
  }

  /** `m,1` reports a passing check of component `m` with no logs. */
  lemma PassingCheckRecord()
    ensures LineResults(AsciiText(PassingCheck)) == [TestRecord("m", Pass, "Board", "")]
    ensures !Contains(AsciiText(PassingCheck), EndMarker)
  {
    PassingCheckText();
    var t0 := "m,1\n";
    assert !Contains(t0, EndMarker) by {
      assert t0[1..][..3] != EndMarker;
    }
    assert Split(t0, ',') == ["m", "1\n"] by {
      var r := "1\n";
      SplitNoSeparator(r, ',');
      var c := "," + r;
      assert c[1..] == r;
      assert Split(c, ',') == [""] + [r];
      assert t0 == "m" + c;
      assert t0[1..] == c;
      assert Split(t0, ',') == [['m'] + ""] + [r];
      assert ['m'] + "" == "m";
      assert [['m'] + ""] + [r] == ["m", "1\n"];
    }
    assert '1' in "1\n" by {
      assert "1\n"[0] == '1';
    }
  }

  /** `END1` closes the report with a pass and reports no check itself. */
  lemma PassingEndLine()
    ensures LineResults(AsciiText(PassingEnd)) == []
    ensures Contains(AsciiText(PassingEnd), EndMarker) && '1' in AsciiText(PassingEnd)
  {
    PassingEndText();
    assert Contains("END1\n", EndMarker) by {
      assert "END1\n"[..3] == EndMarker;
    }
    SplitNoSeparator("END1\n", ',');
    assert "END1\n"[3] == '1';
  }

  /** A check report, then the end marker with a `1`: one passing record, a pass, and what follows is not read. */
  lemma PassingReportExample(rest: seq<seq<Byte>>)
    ensures ReadSession([PassingCheck, PassingEnd] + rest)
      == Completed(2, "END1\n", [TestRecord("m", Pass, "Board", "")])
    ensures Verdict(ReadSession([PassingCheck, PassingEnd] + rest))
  {
    var lines := [PassingCheck, PassingEnd] + rest;
    PassingCheckText();
    PassingEndText();
    PassingCheckRecord();
    PassingEndLine();
    StopUnique(lines, 1);
    assert lines[..2] == [PassingCheck, PassingEnd];
    assert [PassingCheck, PassingEnd][..1] == [PassingCheck];
    assert Results([PassingCheck]) == LineResults(AsciiText(PassingCheck)) by {
      assert [PassingCheck][..0] == [];
    }
  }

  /** A byte of 128 or more makes the reading fail at that line. */
  lemma NonAsciiLineFails(good: seq<Byte>, bad: seq<Byte>, rest: seq<seq<Byte>>)
    requires IsAscii(good) && !Contains(AsciiText(good), EndMarker) && !IsAscii(bad)
    ensures ReadSession([good, bad] + rest) == Undecodable(1)
  {
    var lines := [good, bad] + rest;
    StopUnique(lines, 1);
  }
}
