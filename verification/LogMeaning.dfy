/** What a scan of log files reports, told of the lines it reads and of what each pattern finds in them. */
module LogMeaning {
  import opened Basics
  import opened TextLines
  import opened Hex
  import opened LogScan

  // ---------------------------------------------------------------- one line

  /** The text is that of the least pattern that finds something in the line. */
  ghost predicate FoundBy(line: string, patterns: seq<Pattern>, text: string) {
    exists k :: 0 <= k < |patterns| && patterns[k].finds(line) && patterns[k].text == text
                && forall j :: 0 <= j < k ==> !patterns[j].finds(line)
  }

  ghost predicate FoundByNone(line: string, patterns: seq<Pattern>) {
    forall j :: 0 <= j < |patterns| ==> !patterns[j].finds(line)
  }

  /** No pattern is found only when none finds anything; otherwise the least one that does, number `k`. */
  lemma {:induction false} FirstPatternIsLeast(line: string, patterns: seq<Pattern>) returns (k: nat)
    ensures FirstPattern(line, patterns) == [] <==>
            forall j :: 0 <= j < |patterns| ==> !patterns[j].finds(line)
    ensures FirstPattern(line, patterns) != [] ==>
              && k < |patterns| && patterns[k].finds(line) && FirstPattern(line, patterns) == [patterns[k].text]
              && forall j :: 0 <= j < k ==> !patterns[j].finds(line)
  {
    k := 0;
    if patterns != [] && !patterns[0].finds(line) {
      var rest := FirstPatternIsLeast(line, patterns[1..]);
      assert forall j :: 0 < j < |patterns| ==> patterns[j] == patterns[1..][j - 1];
      k := rest + 1;
    }
  }

  // ---------------------------------------------------------------- the lines a scan reads

  /** A line as a scan reads it: the file it is from, its number counted from where reading started, its text. */
  datatype Line = Line(key: string, number: nat, text: string)

  function Numbered(key: string, lines: seq<string>): (numbered: seq<Line>)
    ensures |numbered| == |lines|
    ensures forall i :: 0 <= i < |lines| ==> numbered[i] == Line(key, i + 1, lines[i])
  {
    seq(|lines|, i requires 0 <= i < |lines| => Line(key, i + 1, lines[i]))
  }

  function OffsetsAfter(files: seq<LogFile>, offsets: map<string, nat>): map<string, nat> {
    if files == [] then offsets
    else
      var n := |files| - 1;
      NewOffsets(files[n], OffsetsAfter(files[..n], offsets))
  }

  /** All lines that a scan without a cap reads, in order. */
  function Stream(files: seq<LogFile>, offsets: map<string, nat>, decode: seq<byte> -> string): seq<Line> {
    if files == [] then []
    else
      var n := |files| - 1;
      Stream(files[..n], offsets, decode)
      + Numbered(files[n].key, NewLines(files[n], OffsetsAfter(files[..n], offsets), decode))
  }

  /**
   What is read of one file: nothing, its offset staying, when it cannot be read or its size is the offset; all of it
   when it has become shorter; and otherwise what lies behind the offset. The new offset is where reading ends.
   */
  lemma ReadsWhatWasAppended(f: LogFile, offsets: map<string, nat>, decode: seq<byte> -> string)
    ensures var offset := if f.key in offsets then offsets[f.key] else 0;
            && (!f.answer.Opens? ==> NewLines(f, offsets, decode) == [] && NewOffsets(f, offsets) == offsets)
            && (f.answer.Opens? ==>
                  var (size, content) := (f.answer.size, f.answer.content);
                  && (size == offset || size == 0 ==>
                        NewLines(f, offsets, decode) == [] && NewOffsets(f, offsets) == offsets)
                  && (0 < size < offset ==>
                        NewLines(f, offsets, decode) == SplitLines(decode(content))
                        && NewOffsets(f, offsets) == offsets[f.key := |content|])
                  && (offset < size && offset <= |content| ==>
                        NewLines(f, offsets, decode) == SplitLines(decode(content[offset..]))
                        && NewOffsets(f, offsets) == offsets[f.key := |content|])
                  && (|content| < offset < size ==> NewOffsets(f, offsets) == offsets[f.key := offset]))
  {
    if f.answer.Opens? {
      assert f.answer.content[0..] == f.answer.content;
    }
  }

  // ---------------------------------------------------------------- what is reported of them

  predicate Ascending(at: seq<nat>, bound: nat) {
    && (forall r :: 0 <= r < |at| ==> at[r] < bound)
    && (forall q, r :: 0 <= q < r < |at| ==> at[q] < at[r])
  }

  /** The match is the line, with the least pattern that finds something in it. */
  ghost predicate ReportsLine(m: Match, line: Line, patterns: seq<Pattern>) {
    m.path == line.key && m.lineNumber == line.number && m.line == line.text && FoundBy(line.text, patterns, m.pattern)
  }

  /** Match number `r` reports line number `at[r]`, in order, and no pattern finds anything in the other lines. */
  ghost predicate Reports(stream: seq<Line>, patterns: seq<Pattern>, matches: seq<Match>, at: seq<nat>) {
    && |at| == |matches| && Ascending(at, |stream|)
    && (forall r :: 0 <= r < |at| ==> ReportsLine(matches[r], stream[at[r]], patterns))
    && (forall i :: 0 <= i < |stream| && i !in at ==> FoundByNone(stream[i].text, patterns))
  }

  lemma ReportsSnoc(stream: seq<Line>, line: Line, patterns: seq<Pattern>, matches: seq<Match>, at: seq<nat>)
    requires Reports(stream, patterns, matches, at)
    ensures var found := FirstPattern(line.text, patterns);
            if found == [] then Reports(stream + [line], patterns, matches, at)
            else Reports(stream + [line], patterns,
                         matches + [Match(line.key, line.number, found[0], line.text)], at + [|stream|])
  {
    hide FirstPattern;
    var k := FirstPatternIsLeast(line.text, patterns);
    var more := at + [|stream|];
    assert forall i :: 0 <= i < |stream| ==> (i in more <==> i in at);
    assert more[|at|] == |stream|;
  }

  lemma {:induction false} LinesReport(stream: seq<Line>, key: string, lines: seq<string>, patterns: seq<Pattern>,
                                       matches: seq<Match>, before: seq<nat>) returns (at: seq<nat>)
    requires Reports(stream, patterns, matches, before)
    ensures Reports(stream + Numbered(key, lines), patterns, matches + AllMatches(key, lines, patterns), at)
  {
    hide Reports, FirstPattern;
    if lines == [] {
      assert stream + Numbered(key, lines) == stream && matches + [] == matches;
      at := before;
    } else {
      var n := |lines| - 1;
      at := LinesReport(stream, key, lines[..n], patterns, matches, before);
      var line := Line(key, n + 1, lines[n]);
      var found := FirstPattern(lines[n], patterns);
      var some := AllMatches(key, lines[..n], patterns);
      ReportsSnoc(stream + Numbered(key, lines[..n]), line, patterns, matches + some, at);
      assert stream + Numbered(key, lines) == stream + Numbered(key, lines[..n]) + [line];
      ConcatAssociates(matches, some, MatchOf(key, n + 1, lines[n], patterns));
      if found != [] {
        at := at + [|stream + Numbered(key, lines[..n])|];
      } else {
        assert matches + some + [] == matches + some;
      }
    }
  }

  /** A scan without a cap reports exactly the lines in which some pattern finds something, each once and in order. */
  lemma {:induction false} ScanReports(files: seq<LogFile>, offsets: map<string, nat>, decode: seq<byte> -> string,
                                       patterns: seq<Pattern>) returns (at: seq<nat>)
    ensures Reports(Stream(files, offsets, decode), patterns, ScanAll(files, offsets, decode, patterns).matches, at)
    ensures ScanAll(files, offsets, decode, patterns).offsets == OffsetsAfter(files, offsets)
  {
    hide NewLines, NewOffsets, AllMatches;
    if files == [] {
      at := [];
    } else {
      hide Reports;
      var n := |files| - 1;
      at := ScanReports(files[..n], offsets, decode, patterns);
      var rest := ScanAll(files[..n], offsets, decode, patterns);
      at := LinesReport(Stream(files[..n], offsets, decode), files[n].key, NewLines(files[n], rest.offsets, decode),
                        patterns, rest.matches, at);
    }
  }

  lemma FirstReports(stream: seq<Line>, patterns: seq<Pattern>, matches: seq<Match>, at: seq<nat>, cap: nat)
    requires Reports(stream, patterns, matches, at) && 0 < cap <= |matches|
    ensures at[cap - 1] < |stream|
    ensures Reports(stream[..at[cap - 1] + 1], patterns, matches[..cap], at[..cap])
  {
    hide FoundByNone, ReportsLine;
    var seen := at[cap - 1] + 1;
    forall i | 0 <= i < seen && i !in at[..cap]
      ensures FoundByNone(stream[i].text, patterns)
    {
      assert i !in at;
    }
  }

  /**
   A scan reports, of the lines up to the one that brings it to the cap, exactly those in which some pattern finds
   something: each once, in order, under its number, with the least such pattern. Below the cap these are all lines.
   */
  lemma PollReports(files: seq<LogFile>, offsets: map<string, nat>, decode: seq<byte> -> string,
                    patterns: seq<Pattern>, cap: nat) returns (seen: nat, at: seq<nat>)
    requires cap > 0
    ensures var stream := Stream(files, offsets, decode);
            var poll := PollFiles(files, offsets, decode, patterns, cap);
            && seen <= |stream| && Reports(stream[..seen], patterns, poll.state.matches, at)
            && (poll.full ==> |at| == cap && seen == at[cap - 1] + 1)
            && (!poll.full ==> |at| < cap && seen == |stream| && poll.state.offsets == OffsetsAfter(files, offsets))
  {
    hide PollFiles, ScanAll, Stream, OffsetsAfter, ReportsLine, FoundByNone;
    var stream := Stream(files, offsets, decode);
    CapKeepsFirst(files, offsets, decode, patterns, cap);
    at := ScanReports(files, offsets, decode, patterns);
    seen := |stream|;
    assert stream[..seen] == stream;
    var all := ScanAll(files, offsets, decode, patterns).matches;
    if |all| >= cap {
      FirstReports(stream, patterns, all, at, cap);
      seen := at[cap - 1] + 1;
      at := at[..cap];
    }
  }

  /** Hit number `r` is line number `at[r]`, in order, and no pattern finds anything in the other lines. */
  ghost predicate HitsReport(lines: seq<string>, patterns: seq<Pattern>, hits: seq<Hit>, at: seq<nat>) {
    && |at| == |hits| && Ascending(at, |lines|)
    && (forall r :: 0 <= r < |at| ==> hits[r].line == lines[at[r]] && FoundBy(lines[at[r]], patterns, hits[r].pattern))
    && (forall i :: 0 <= i < |lines| && i !in at ==> FoundByNone(lines[i], patterns))
  }

  lemma HitsReportSnoc(lines: seq<string>, line: string, patterns: seq<Pattern>, hits: seq<Hit>, at: seq<nat>)
    requires HitsReport(lines, patterns, hits, at)
    ensures var found := FirstPattern(line, patterns);
            if found == [] then HitsReport(lines + [line], patterns, hits, at)
            else HitsReport(lines + [line], patterns, hits + [Hit(found[0], line)], at + [|lines|])
  {
    hide FirstPattern;
    var k := FirstPatternIsLeast(line, patterns);
    var more := at + [|lines|];
    assert forall i :: 0 <= i < |lines| ==> (i in more <==> i in at);
    assert more[|at|] == |lines|;
  }

  /** The hits of some lines are the lines in which some pattern finds something, in order, with the least one. */
  lemma {:induction false} HitsAreFound(lines: seq<string>, patterns: seq<Pattern>) returns (at: seq<nat>)
    ensures HitsReport(lines, patterns, HitsIn(lines, patterns), at)
  {
    if lines == [] {
      at := [];
    } else {
      hide HitsReport, FirstPattern;
      var n := |lines| - 1;
      at := HitsAreFound(lines[..n], patterns);
      HitsReportSnoc(lines[..n], lines[n], patterns, HitsIn(lines[..n], patterns), at);
      assert lines == lines[..n] + [lines[n]];
      if FirstPattern(lines[n], patterns) != [] {
        at := at + [n];
      } else {
        assert HitsIn(lines[..n], patterns) + [] == HitsIn(lines[..n], patterns);
      }
    }
  }
}
