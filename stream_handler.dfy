/** Utils::StreamHandler (src/utils.cpp): reading one line with the
    carriage return of a CRLF ending removed, and the two scans that skip
    blank lines or skip to the next blank line. The caller's stream is an
    InputStream; the caller's line buffer is passed in and handed back. */
module StreamHandler {
  import opened Stream
  import opened Utils

  const LF: char := '\n'
  const CR: char := '\r'

  /** The line with one trailing carriage return removed, if it has one. */
  function StripCR(raw: seq<char>): (line: seq<char>)
    ensures raw == line + [CR] || (line == raw && (raw == [] || raw[|raw| - 1] != CR))
  {
    if |raw| > 0 && raw[|raw| - 1] == CR then raw[..|raw| - 1] else raw
  }

  /** The line get_line yields when the input line starts at `pos`: the
      text that follows `pos`, stopping before the line feed. */
  function LineAt(data: seq<char>, pos: nat): (line: seq<char>)
    requires pos < |data|
    ensures pos + |line| <= DelimIndex(data, pos, LF)
    ensures line == data[pos..pos + |line|]
  {
    var raw := data[pos..DelimIndex(data, pos, LF)];
    var line := StripCR(raw);
    assert line == raw[..|line|];
    line
  }

  /** Where the line after the one starting at `pos` starts: past its line
      feed, or at the end of input when it has none. */
  function NextLineStart(data: seq<char>, pos: nat): (q: nat)
    requires pos < |data|
    ensures pos < q <= |data|
  {
    var k := DelimIndex(data, pos, LF);
    if k < |data| then k + 1 else |data|
  }

  /** The lines starting at `from`, up to but not including the one
      starting at `to`, are all blank (when `blank`) or all not blank. */
  predicate Run(data: seq<char>, from: nat, to: nat, blank: bool)
    decreases |data| - from
  {
    if from == to then true
    else from < to <= |data| &&
         IsWhitespaceOrEmpty(LineAt(data, from)) == blank &&
         Run(data, NextLineStart(data, from), to, blank)
  }

  /** A run extends by one line of the same kind. */
  lemma {:induction false} RunExtend(data: seq<char>, from: nat, to: nat, blank: bool)
    requires from <= to < |data|
    requires Run(data, from, to, blank)
    requires IsWhitespaceOrEmpty(LineAt(data, to)) == blank
    ensures Run(data, from, NextLineStart(data, to), blank)
    decreases |data| - from
  {
    if from < to {
      RunExtend(data, NextLineStart(data, from), to, blank);
    }
  }

  /** When every line from `from` to the end has one kind, so does the line
      at the end of any run that starts at `from`. */
  lemma {:induction false} RunToEndDecides(data: seq<char>, from: nat, mid: nat, blank: bool, other: bool)
    requires Run(data, from, |data|, blank)
    requires Run(data, from, mid, other)
    requires mid < |data|
    ensures IsWhitespaceOrEmpty(LineAt(data, mid)) == blank
    decreases |data| - from
  {
    if from != mid {
      RunToEndDecides(data, NextLineStart(data, from), mid, blank, other);
    }
  }

  /** A line read back never holds a line feed, and it never ends with
      the carriage return of a CRLF ending: exactly one trailing carriage
      return of the raw line is removed. */
  lemma LineAtShape(data: seq<char>, pos: nat)
    requires pos < |data|
    ensures LF !in LineAt(data, pos)
    ensures var raw := data[pos..DelimIndex(data, pos, LF)];
      raw == LineAt(data, pos) + [CR] ||
      (raw == LineAt(data, pos) && (raw == [] || raw[|raw| - 1] != CR))
  {
    var k := DelimIndex(data, pos, LF);
    var raw := data[pos..k];
    assert forall i :: 0 <= i < |raw| ==> raw[i] == data[pos + i];
    assert LF !in raw;
  }

  /** A line ended by CRLF and the same line ended by LF read back the
      same, and the next line starts right after the terminator. */
  lemma LineEndingsAgree(s: seq<char>, rest: seq<char>)
    requires LF !in s
    requires s == [] || s[|s| - 1] != CR
    ensures LineAt(s + [LF] + rest, 0) == s
    ensures LineAt(s + [CR, LF] + rest, 0) == s
    ensures NextLineStart(s + [LF] + rest, 0) == |s| + 1
    ensures NextLineStart(s + [CR, LF] + rest, 0) == |s| + 2
  {
    var unix := s + [LF] + rest;
    var dos := s + [CR, LF] + rest;
    assert forall i :: 0 <= i < |s| ==> unix[i] == s[i] && dos[i] == s[i];
    assert dos[|s|] == CR;
    DelimIndexUnique(unix, 0, LF, |s|);
    DelimIndexUnique(dos, 0, LF, |s| + 1);
    assert unix[0..|s|] == s;
    assert dos[0..|s| + 1] == s + [CR];
  }

  /** get_line: std::getline up to a line feed, then one trailing carriage
      return removed. It fails only when the stream was already spent or
      the read position was at the end of input. */
  method GetLine(stream: InputStream, line: seq<char>) returns (r: seq<char>)
    requires stream.Valid()
    modifies stream
    ensures stream.Valid()
    ensures !old(stream.Good()) ==>
      r == StripCR(line) && stream.fail && stream.pos == old(stream.pos) && stream.eof == old(stream.eof)
    ensures old(stream.Good()) ==> stream.fail == (old(stream.pos) == |stream.data|)
    ensures old(stream.Good()) && stream.fail ==> r == [] && stream.eof && stream.pos == |stream.data|
    ensures old(stream.Good()) && !stream.fail ==>
      r == LineAt(stream.data, old(stream.pos)) &&
      stream.pos == NextLineStart(stream.data, old(stream.pos)) &&
      stream.eof == (DelimIndex(stream.data, old(stream.pos), LF) == |stream.data|)
  {
    r := stream.GetLine(line, LF);
    if |r| > 0 && r[|r| - 1] == CR {
      r := r[..|r| - 1];
    }
  }

  /** get_next_non_blank_line: read lines until one is not blank. On
      success `start` is where that line began, every line read before it
      during the call was blank, and the stream is just past it. When the
      input runs out first, the line is "" and every remaining line was
      blank. */
  method GetNextNonBlankLine(stream: InputStream, line: seq<char>) returns (r: seq<char>, ghost start: nat)
    requires stream.Valid()
    modifies stream
    ensures stream.Valid()
    ensures stream.fail <==> Run(stream.data, old(stream.pos), |stream.data|, true)
    ensures stream.fail ==> r == [] && stream.pos == |stream.data|
    ensures stream.fail ==> stream.eof == (old(stream.Good()) || old(stream.eof))
    ensures !stream.fail ==>
      old(stream.Good()) &&
      old(stream.pos) <= start < |stream.data| &&
      Run(stream.data, old(stream.pos), start, true) &&
      r == LineAt(stream.data, start) && !IsWhitespaceOrEmpty(r) &&
      stream.pos == NextLineStart(stream.data, start) &&
      stream.eof == (DelimIndex(stream.data, start, LF) == |stream.data|)
  {
    r := line;
    start := stream.pos;
    while true
      invariant stream.Valid()
      invariant old(stream.pos) <= stream.pos
      invariant Run(stream.data, old(stream.pos), stream.pos, true)
      invariant !old(stream.Good()) ==> stream.eof == old(stream.eof) && stream.fail == old(stream.fail)
      invariant old(stream.Good()) && !stream.Good() ==> stream.eof
      invariant stream.pos == old(stream.pos) || (old(stream.Good()) && !stream.fail)
      invariant stream.Good() || !old(stream.Good()) || stream.pos == |stream.data|
      decreases |stream.data| - stream.pos
    {
      start := stream.pos;
      r := GetLine(stream, r);
      if stream.fail {
        r := [];
        return;
      }
      if !IsWhitespaceOrEmpty(r) {
        if Run(stream.data, old(stream.pos), |stream.data|, true) {
          RunToEndDecides(stream.data, old(stream.pos), start, true, true);
        }
        return;
      }
      RunExtend(stream.data, old(stream.pos), start, true);
    }
  }

  /** skip_to_next_blank_line: read lines until one is blank. On success
      `start` is where that blank line began, every line read before it
      during the call was not blank, and the stream is just past it. When
      the input runs out first, the line is "" and no remaining line was
      blank. */
  method SkipToNextBlankLine(stream: InputStream, line: seq<char>) returns (r: seq<char>, ghost start: nat)
    requires stream.Valid()
    modifies stream
    ensures stream.Valid()
    ensures stream.fail <==> Run(stream.data, old(stream.pos), |stream.data|, false)
    ensures stream.fail ==> r == [] && stream.pos == |stream.data|
    ensures stream.fail ==> stream.eof == (old(stream.Good()) || old(stream.eof))
    ensures !stream.fail ==>
      old(stream.Good()) &&
      old(stream.pos) <= start < |stream.data| &&
      Run(stream.data, old(stream.pos), start, false) &&
      r == LineAt(stream.data, start) && IsWhitespaceOrEmpty(r) &&
      stream.pos == NextLineStart(stream.data, start) &&
      stream.eof == (DelimIndex(stream.data, start, LF) == |stream.data|)
  {
    r := line;
    start := stream.pos;
    while true
      invariant stream.Valid()
      invariant old(stream.pos) <= stream.pos
      invariant Run(stream.data, old(stream.pos), stream.pos, false)
      invariant !old(stream.Good()) ==> stream.eof == old(stream.eof) && stream.fail == old(stream.fail)
      invariant old(stream.Good()) && !stream.Good() ==> stream.eof
      invariant stream.pos == old(stream.pos) || (old(stream.Good()) && !stream.fail)
      invariant stream.Good() || !old(stream.Good()) || stream.pos == |stream.data|
      decreases |stream.data| - stream.pos
    {
      start := stream.pos;
      r := GetLine(stream, r);
      if stream.fail {
        r := [];
        return;
      }
      if IsWhitespaceOrEmpty(r) {
        if Run(stream.data, old(stream.pos), |stream.data|, false) {
          RunToEndDecides(stream.data, old(stream.pos), start, false, false);
        }
        return;
      }
      RunExtend(stream.data, old(stream.pos), start, false);
    }
  }

  /** A scan stops at the first line of the other kind: two runs from the
      same line that both reach such a line reach the same one. */
  lemma {:induction false} RunStopUnique(data: seq<char>, from: nat, x: nat, y: nat, blank: bool)
    requires Run(data, from, x, blank) && Run(data, from, y, blank)
    requires x < |data| && y < |data|
    requires IsWhitespaceOrEmpty(LineAt(data, x)) != blank
    requires IsWhitespaceOrEmpty(LineAt(data, y)) != blank
    ensures x == y
    decreases |data| - from
  {
    if from != x && from != y {
      RunStopUnique(data, NextLineStart(data, from), x, y, blank);
    }
  }

  /** A run that reaches a line of the other kind does not reach the end. */
  lemma RunStopsBeforeEnd(data: seq<char>, from: nat, x: nat, blank: bool)
    requires Run(data, from, x, blank) && x < |data|
    requires IsWhitespaceOrEmpty(LineAt(data, x)) != blank
    ensures !Run(data, from, |data|, blank)
  {
    if Run(data, from, |data|, blank) {
      RunToEndDecides(data, from, x, blank, blank);
    }
  }

  /** In "a\nb\n\nc" the lines "a" and "b" are not blank and the third
      line, starting at 4, is empty. */
  lemma ExampleLines(d: seq<char>)
    requires d == "a\nb\n\nc"
    ensures Run(d, 0, 4, false)
    ensures LineAt(d, 4) == "" && NextLineStart(d, 4) == 5
  {
    DelimIndexUnique(d, 0, LF, 1);
    DelimIndexUnique(d, 2, LF, 3);
    DelimIndexUnique(d, 4, LF, 4);
    assert d[0..1] == "a" && d[2..3] == "b" && d[4..4] == "";
    assert LineAt(d, 0) == "a" && NextLineStart(d, 0) == 2;
    assert LineAt(d, 2) == "b" && NextLineStart(d, 2) == 4;
    assert !IsWhitespaceOrEmpty("a") && !IsWhitespaceOrEmpty("b");
    assert Run(d, 4, 4, false);
    assert Run(d, 2, 4, false);
  }

  /** Lines "a", "b", "", "c": the skip consumes "a", "b" and the empty
      line, returns "" as a success, and leaves the stream at "c" with
      eofbit clear. */
  method SkipExample() returns (r: seq<char>, rest: seq<char>, failed: bool, atEnd: bool)
    ensures r == "" && rest == "c" && !failed && !atEnd
  {
    var d := "a\nb\n\nc";
    var stream := new InputStream(d);
    ghost var start;
    r, start := SkipToNextBlankLine(stream, "x");
    ExampleLines(d);
    RunStopsBeforeEnd(d, 0, 4, false);
    RunStopUnique(d, 0, start, 4, false);
    DelimIndexUnique(d, 4, LF, 4);
    rest := d[stream.pos..];
    failed := stream.fail;
    atEnd := stream.eof;
  }
}
