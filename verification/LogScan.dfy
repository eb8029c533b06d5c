/** Scanning what was appended to log files since the last scan for failure markers. */
module LogScan {
  import opened Basics
  import opened TextLines
  import opened Hex
  import Utf8

  datatype Pattern = Pattern(text: string, finds: string -> bool)

  datatype Match = Match(path: string, lineNumber: nat, pattern: string, line: string)

  /** What the file system answers for one path during one scan. */
  datatype Answer =
    | StatFails
    | OpenFails(size: nat)
    | Opens(size: nat, content: seq<byte>)

  datatype LogFile = LogFile(key: string, answer: Answer)

  /** The stored offsets, and the markers found. */
  datatype State = State(offsets: map<string, nat>, matches: seq<Match>)

  /** A scan under way: `full` once the cap has been reached. */
  datatype Poll = Poll(state: State, full: bool)

  /** The caller's table of offsets, which a scan updates. */
  class Offsets {
    var table: map<string, nat>

    constructor ()
      ensures table == map[]
    {
      table := map[];
    }
  }

  // ---------------------------------------------------------------- one file

  function OffsetOf(offsets: map<string, nat>, key: string): nat {
    if key in offsets then offsets[key] else 0
  }

  /** Where reading starts: from the beginning again when the file has become shorter. */
  function StartOf(size: nat, offset: nat): nat {
    if size < offset then 0 else offset
  }

  /** The appended bytes, or nothing when the file cannot be read or has not grown. */
  predicate IsRead(f: LogFile, offset: nat) {
    f.answer.Opens? && f.answer.size != StartOf(f.answer.size, offset)
  }

  function BytesFrom(content: seq<byte>, start: nat): seq<byte> {
    if start <= |content| then content[start..] else []
  }

  function NewBytes(f: LogFile, offset: nat): seq<byte> {
    if IsRead(f, offset) then BytesFrom(f.answer.content, StartOf(f.answer.size, offset)) else []
  }

  function NewOffsets(f: LogFile, offsets: map<string, nat>): map<string, nat> {
    var offset := OffsetOf(offsets, f.key);
    if IsRead(f, offset) then offsets[f.key := StartOf(f.answer.size, offset) + |NewBytes(f, offset)|] else offsets
  }

  function NewLines(f: LogFile, offsets: map<string, nat>, decode: seq<byte> -> string): seq<string> {
    if IsRead(f, OffsetOf(offsets, f.key)) then SplitLines(decode(NewBytes(f, OffsetOf(offsets, f.key)))) else []
  }

  // ---------------------------------------------------------------- lines

  /** The first pattern that finds something in the line. */
  function FirstPattern(line: string, patterns: seq<Pattern>): seq<string> {
    if patterns == [] then []
    else if patterns[0].finds(line) then [patterns[0].text]
    else FirstPattern(line, patterns[1..])
  }

  /** At most one match for a line, numbered from one. */
  function MatchOf(key: string, number: nat, line: string, patterns: seq<Pattern>): (m: seq<Match>)
    ensures |m| <= 1
  {
    var found := FirstPattern(line, patterns);
    if found == [] then [] else [Match(key, number, found[0], line)]
  }

  /** All matches of some lines, without a cap. */
  function AllMatches(key: string, lines: seq<string>, patterns: seq<Pattern>): seq<Match> {
    if lines == [] then []
    else
      var n := |lines| - 1;
      AllMatches(key, lines[..n], patterns) + MatchOf(key, n + 1, lines[n], patterns)
  }

  /** The lines of one file, added to the matches found `before`, until the cap is reached. */
  function ScanLines(key: string, lines: seq<string>, patterns: seq<Pattern>, cap: int, before: seq<Match>)
    : (seq<Match>, bool)
  {
    if lines == [] then (before, false)
    else
      var n := |lines| - 1;
      var (matches, full) := ScanLines(key, lines[..n], patterns, cap, before);
      if full then (matches, true)
      else
        var more := matches + MatchOf(key, n + 1, lines[n], patterns);
        (more, |more| >= cap)
  }

  // ---------------------------------------------------------------- files

  /** One scan of some files. */
  function PollFiles(files: seq<LogFile>, offsets: map<string, nat>, decode: seq<byte> -> string,
                     patterns: seq<Pattern>, cap: int): Poll
  {
    if files == [] then Poll(State(offsets, []), false)
    else
      var n := |files| - 1;
      var rest := PollFiles(files[..n], offsets, decode, patterns, cap);
      if rest.full then rest
      else
        var (matches, full) := ScanLines(files[n].key, NewLines(files[n], rest.state.offsets, decode), patterns, cap,
                                         rest.state.matches);
        Poll(State(NewOffsets(files[n], rest.state.offsets), matches), full)
  }

  lemma ScanLinesSnoc(key: string, lines: seq<string>, line: string, patterns: seq<Pattern>, cap: int,
                      before: seq<Match>)
    ensures var (matches, full) := ScanLines(key, lines, patterns, cap, before);
            var more := matches + MatchOf(key, |lines| + 1, line, patterns);
            ScanLines(key, lines + [line], patterns, cap, before)
            == if full then (matches, true) else (more, |more| >= cap)
  {
    assert (lines + [line])[..|lines|] == lines;
  }

  lemma {:induction false} ScanLinesFull(key: string, lines: seq<string>, k: nat, patterns: seq<Pattern>, cap: int,
                                         before: seq<Match>)
    requires k <= |lines| && ScanLines(key, lines[..k], patterns, cap, before).1
    ensures ScanLines(key, lines, patterns, cap, before) == ScanLines(key, lines[..k], patterns, cap, before)
  {
    if k == |lines| {
      assert lines[..k] == lines;
    } else {
      var n := |lines| - 1;
      assert lines[..n][..k] == lines[..k];
      ScanLinesFull(key, lines[..n], k, patterns, cap, before);
    }
  }

  lemma PollFilesSnoc(files: seq<LogFile>, f: LogFile, offsets: map<string, nat>, decode: seq<byte> -> string,
                      patterns: seq<Pattern>, cap: int)
    ensures var rest := PollFiles(files, offsets, decode, patterns, cap);
            PollFiles(files + [f], offsets, decode, patterns, cap)
            == if rest.full then rest
               else
                 var (matches, full) := ScanLines(f.key, NewLines(f, rest.state.offsets, decode), patterns, cap,
                                                  rest.state.matches);
                 Poll(State(NewOffsets(f, rest.state.offsets), matches), full)
  {
    assert (files + [f])[..|files|] == files;
  }

  lemma {:induction false} PollFilesFull(files: seq<LogFile>, k: nat, offsets: map<string, nat>,
                                         decode: seq<byte> -> string, patterns: seq<Pattern>, cap: int)
    requires k <= |files| && PollFiles(files[..k], offsets, decode, patterns, cap).full
    ensures PollFiles(files, offsets, decode, patterns, cap) == PollFiles(files[..k], offsets, decode, patterns, cap)
  {
    hide PollFiles;
    if k == |files| {
      assert files[..k] == files;
    } else {
      var n := |files| - 1;
      assert files[..n][..k] == files[..k] && files == files[..n] + [files[n]];
      PollFilesFull(files[..n], k, offsets, decode, patterns, cap);
      PollFilesSnoc(files[..n], files[n], offsets, decode, patterns, cap);
    }
  }

  method FindPattern(line: string, patterns: seq<Pattern>) returns (found: seq<string>)
    ensures found == FirstPattern(line, patterns)
  {
    var i := 0;
    while i < |patterns|
      invariant i <= |patterns| && FirstPattern(line, patterns) == FirstPattern(line, patterns[i..])
    {
      if patterns[i].finds(line) {
        return [patterns[i].text];
      }
      i := i + 1;
    }
    return [];
  }

  /** Scans the files, updates the offsets and stops as soon as a line brings the matches up to the cap. */
  method ScanLogMarkers(files: seq<LogFile>, offsets: Offsets, decode: seq<byte> -> string, patterns: seq<Pattern>,
                        maxMatches: int)
    returns (matches: seq<Match>)
    modifies offsets
    ensures State(offsets.table, matches) == PollFiles(files, old(offsets.table), decode, patterns, maxMatches).state
  {
    hide ScanLines, PollFiles, NewLines, NewBytes, NewOffsets, FirstPattern, SplitLines;
    matches := [];
    ghost var start := offsets.table;
    NothingPolled(start, decode, patterns, maxMatches);
    for i := 0 to |files|
      invariant PollFiles(files[..i], start, decode, patterns, maxMatches) == Poll(State(offsets.table, matches), false)
    {
      var f := files[i];
      PollFilesSnoc(files[..i], f, start, decode, patterns, maxMatches);
      assert files[..i + 1] == files[..i] + [f];
      ghost var table, before := offsets.table, matches;
      var offset := OffsetOf(offsets.table, f.key);
      Skipped(f, table, decode, patterns, maxMatches, before);
      if f.answer.StatFails? {
        continue;
      }
      offset := StartOf(f.answer.size, offset);
      if f.answer.size == offset {
        continue;
      }
      if f.answer.OpenFails? {
        continue;
      }
      var data := BytesFrom(f.answer.content, offset);
      offsets.table := offsets.table[f.key := offset + |data|];
      var lines := SplitLines(decode(data));
      NoLines(f.key, patterns, maxMatches, before);
      Read(f, table, decode);
      for j := 0 to |lines|
        invariant offsets.table == NewOffsets(f, table)
        invariant ScanLines(f.key, lines[..j], patterns, maxMatches, before) == (matches, false)
      {
        var found := FindPattern(lines[j], patterns);
        ghost var more := matches + MatchOf(f.key, j + 1, lines[j], patterns);
        ScanLinesSnoc(f.key, lines[..j], lines[j], patterns, maxMatches, before);
        assert lines[..j + 1] == lines[..j] + [lines[j]];
        if found != [] {
          matches := matches + [Match(f.key, j + 1, found[0], lines[j])];
        }
        assert matches == more;
        if |matches| >= maxMatches {
          ScanLinesFull(f.key, lines, j + 1, patterns, maxMatches, before);
          PollFilesFull(files, i + 1, start, decode, patterns, maxMatches);
          return;
        }
      }
      assert lines[..|lines|] == lines;
    }
    assert files[..|files|] == files;
  }

  lemma NothingPolled(offsets: map<string, nat>, decode: seq<byte> -> string, patterns: seq<Pattern>, cap: int)
    ensures PollFiles([], offsets, decode, patterns, cap) == Poll(State(offsets, []), false)
  {
  }

  lemma NoLines(key: string, patterns: seq<Pattern>, cap: int, before: seq<Match>)
    ensures ScanLines(key, [], patterns, cap, before) == (before, false)
  {
  }

  lemma Skipped(f: LogFile, offsets: map<string, nat>, decode: seq<byte> -> string, patterns: seq<Pattern>, cap: int,
                before: seq<Match>)
    ensures !IsRead(f, OffsetOf(offsets, f.key)) ==>
              NewOffsets(f, offsets) == offsets
              && ScanLines(f.key, NewLines(f, offsets, decode), patterns, cap, before) == (before, false)
  {
  }

  lemma Read(f: LogFile, offsets: map<string, nat>, decode: seq<byte> -> string)
    requires IsRead(f, OffsetOf(offsets, f.key))
    ensures var start := StartOf(f.answer.size, OffsetOf(offsets, f.key));
            var data := BytesFrom(f.answer.content, start);
            NewOffsets(f, offsets) == offsets[f.key := start + |data|]
            && NewLines(f, offsets, decode) == SplitLines(decode(data))
  {
  }

  // ---------------------------------------------------------------- the cap

  /** A run of scans without a cap, over the files in the order they are looked at. */
  function ScanAll(files: seq<LogFile>, offsets: map<string, nat>, decode: seq<byte> -> string, patterns: seq<Pattern>)
    : State
  {
    if files == [] then State(offsets, [])
    else
      var n := |files| - 1;
      var rest := ScanAll(files[..n], offsets, decode, patterns);
      State(NewOffsets(files[n], rest.offsets),
            rest.matches + AllMatches(files[n].key, NewLines(files[n], rest.offsets, decode), patterns))
  }

  lemma UptoConcat<T>(xs: seq<T>, ys: seq<T>, n: nat)
    requires |xs| >= n
    ensures Upto(xs + ys, n) == Upto(xs, n)
  {
  }

  lemma {:induction false} LinesUptoCap(key: string, lines: seq<string>, patterns: seq<Pattern>, cap: nat,
                                        before: seq<Match>)
    requires |before| < cap
    ensures var all := before + AllMatches(key, lines, patterns);
            ScanLines(key, lines, patterns, cap, before) == (Upto(all, cap), |all| >= cap)
  {
    if lines == [] {
      assert before + [] == before;
    } else {
      var n := |lines| - 1;
      LinesUptoCap(key, lines[..n], patterns, cap, before);
      var some, last := AllMatches(key, lines[..n], patterns), MatchOf(key, n + 1, lines[n], patterns);
      var all := before + some + last;
      assert before + (some + last) == all;
      assert |before + some| >= cap ==> all[..cap] == (before + some)[..cap];
      assert |all| == cap ==> all[..cap] == all;
    }
  }

  /**
   A scan returns the first matches up to the cap, and it stops early exactly when there are that many; when it
   does not stop, it has moved every offset as a scan without a cap does.
   */
  lemma {:induction false} CapKeepsFirst(files: seq<LogFile>, offsets: map<string, nat>, decode: seq<byte> -> string,
                                         patterns: seq<Pattern>, cap: nat)
    requires cap > 0
    ensures var poll := PollFiles(files, offsets, decode, patterns, cap);
            var all := ScanAll(files, offsets, decode, patterns);
            && poll.state.matches == Upto(all.matches, cap)
            && (poll.full <==> |all.matches| >= cap)
            && (!poll.full ==> poll.state == all)
  {
    hide PollFiles, ScanAll, ScanLines, NewLines, NewOffsets, AllMatches;
    if files == [] {
      NothingPolled(offsets, decode, patterns, cap);
      EmptyScan(offsets, decode, patterns);
    } else {
      var n := |files| - 1;
      CapKeepsFirst(files[..n], offsets, decode, patterns, cap);
      assert files == files[..n] + [files[n]];
      PollFilesSnoc(files[..n], files[n], offsets, decode, patterns, cap);
      ScanAllSnoc(files[..n], files[n], offsets, decode, patterns);
      var rest := ScanAll(files[..n], offsets, decode, patterns);
      if |rest.matches| >= cap {
        UptoConcat(rest.matches, AllMatches(files[n].key, NewLines(files[n], rest.offsets, decode), patterns), cap);
      } else {
        LinesUptoCap(files[n].key, NewLines(files[n], rest.offsets, decode), patterns, cap, rest.matches);
      }
    }
  }

  // ---------------------------------------------------------------- many scans

  /** The offsets and the collected matches after a schedule of scans. */
  function Run(polls: seq<seq<LogFile>>, decode: seq<byte> -> string, patterns: seq<Pattern>, cap: int): State {
    if polls == [] then State(map[], [])
    else
      var rest := Run(polls[..|polls| - 1], decode, patterns, cap);
      var last := PollFiles(polls[|polls| - 1], rest.offsets, decode, patterns, cap);
      State(last.state.offsets, rest.matches + last.state.matches)
  }

  /** No scan of the schedule stops early. */
  ghost predicate NeverFull(polls: seq<seq<LogFile>>, decode: seq<byte> -> string, patterns: seq<Pattern>, cap: int) {
    forall i :: 0 <= i < |polls| ==>
      !PollFiles(polls[i], Run(polls[..i], decode, patterns, cap).offsets, decode, patterns, cap).full
  }

  function History(polls: seq<seq<LogFile>>): seq<LogFile> {
    if polls == [] then [] else History(polls[..|polls| - 1]) + polls[|polls| - 1]
  }

  lemma {:induction false} ScanAllConcat(a: seq<LogFile>, b: seq<LogFile>, offsets: map<string, nat>,
                                         decode: seq<byte> -> string, patterns: seq<Pattern>)
    ensures var first := ScanAll(a, offsets, decode, patterns);
            var second := ScanAll(b, first.offsets, decode, patterns);
            ScanAll(a + b, offsets, decode, patterns) == State(second.offsets, first.matches + second.matches)
  {
    hide NewOffsets, NewLines, AllMatches, ScanAll;
    var first := ScanAll(a, offsets, decode, patterns);
    if b == [] {
      assert a + b == a;
      EmptyScan(first.offsets, decode, patterns);
      assert first.matches + [] == first.matches;
    } else {
      var n := |b| - 1;
      ScanAllConcat(a, b[..n], offsets, decode, patterns);
      var second := ScanAll(b[..n], first.offsets, decode, patterns);
      ScanAllSnoc(a + b[..n], b[n], offsets, decode, patterns);
      ScanAllSnoc(b[..n], b[n], first.offsets, decode, patterns);
      assert a + b == a + b[..n] + [b[n]] && b == b[..n] + [b[n]];
      ConcatAssociates(first.matches, second.matches,
                       AllMatches(b[n].key, NewLines(b[n], second.offsets, decode), patterns));
    }
  }

  lemma ScanAllSnoc(files: seq<LogFile>, f: LogFile, offsets: map<string, nat>, decode: seq<byte> -> string,
                    patterns: seq<Pattern>)
    ensures var rest := ScanAll(files, offsets, decode, patterns);
            ScanAll(files + [f], offsets, decode, patterns)
            == State(NewOffsets(f, rest.offsets),
                     rest.matches + AllMatches(f.key, NewLines(f, rest.offsets, decode), patterns))
  {
    assert (files + [f])[..|files|] == files;
  }

  /** Without an early stop, a schedule of scans does what one pass over all its files does. */
  lemma {:induction false} RunIsScan(polls: seq<seq<LogFile>>, decode: seq<byte> -> string, patterns: seq<Pattern>,
                                     cap: nat)
    requires cap > 0 && NeverFull(polls, decode, patterns, cap)
    ensures Run(polls, decode, patterns, cap) == ScanAll(History(polls), map[], decode, patterns)
  {
    hide ScanAll, PollFiles;
    if polls == [] {
      EmptyScan(map[], decode, patterns);
    } else {
      var n := |polls| - 1;
      assert forall i :: 0 <= i < n ==> polls[..n][..i] == polls[..i];
      RunIsScan(polls[..n], decode, patterns, cap);
      var rest := Run(polls[..n], decode, patterns, cap);
      CapKeepsFirst(polls[n], rest.offsets, decode, patterns, cap);
      ScanAllConcat(History(polls[..n]), polls[n], map[], decode, patterns);
    }
  }

  lemma EmptyScan(offsets: map<string, nat>, decode: seq<byte> -> string, patterns: seq<Pattern>)
    ensures ScanAll([], offsets, decode, patterns) == State(offsets, [])
  {
  }

  // ---------------------------------------------------------------- what a full scan leaves out

  /** How many of its files a scan looks at: those up to the one whose matches bring it to the cap. */
  function Reach(files: seq<LogFile>, offsets: map<string, nat>, decode: seq<byte> -> string, patterns: seq<Pattern>,
                 cap: nat): (n: nat)
    ensures n <= |files|
  {
    if files == [] then 0
    else
      var init := files[..|files| - 1];
      if |ScanAll(init, offsets, decode, patterns).matches| >= cap then Reach(init, offsets, decode, patterns, cap)
      else |files|
  }

  function Reached(files: seq<LogFile>, offsets: map<string, nat>, decode: seq<byte> -> string,
                   patterns: seq<Pattern>, cap: nat): seq<LogFile>
  {
    files[..Reach(files, offsets, decode, patterns, cap)]
  }

  /** A scan moves the offsets of the files it reaches, past their ends, and keeps their first matches up to the cap. */
  lemma {:induction false} PollReaches(files: seq<LogFile>, offsets: map<string, nat>, decode: seq<byte> -> string,
                                       patterns: seq<Pattern>, cap: nat)
    requires cap > 0
    ensures var all := ScanAll(Reached(files, offsets, decode, patterns, cap), offsets, decode, patterns);
            PollFiles(files, offsets, decode, patterns, cap)
            == Poll(State(all.offsets, Upto(all.matches, cap)), |all.matches| >= cap)
  {
    hide PollFiles, ScanAll, Reach, NewOffsets, NewLines, AllMatches, ScanLines;
    ReachSteps(files, offsets, decode, patterns, cap);
    if files == [] {
      NothingPolled(offsets, decode, patterns, cap);
      EmptyScan(offsets, decode, patterns);
    } else {
      var n := |files| - 1;
      var init, f := files[..n], files[n];
      var rest := ScanAll(init, offsets, decode, patterns);
      assert files == init + [f];
      PollFilesSnoc(init, f, offsets, decode, patterns, cap);
      CapKeepsFirst(init, offsets, decode, patterns, cap);
      if |rest.matches| >= cap {
        PollReaches(init, offsets, decode, patterns, cap);
      } else {
        ScanAllSnoc(init, f, offsets, decode, patterns);
        LinesUptoCap(f.key, NewLines(f, rest.offsets, decode), patterns, cap, rest.matches);
      }
    }
  }

  lemma ReachSteps(files: seq<LogFile>, offsets: map<string, nat>, decode: seq<byte> -> string, patterns: seq<Pattern>,
                   cap: nat)
    ensures files == [] ==> Reached(files, offsets, decode, patterns, cap) == []
    ensures files != [] ==>
              var init := files[..|files| - 1];
              Reached(files, offsets, decode, patterns, cap)
              == if |ScanAll(init, offsets, decode, patterns).matches| >= cap
                 then Reached(init, offsets, decode, patterns, cap) else files
  {
    hide ScanAll;
    if files != [] {
      var init := files[..|files| - 1];
      var k := Reach(init, offsets, decode, patterns, cap);
      assert files[..k] == init[..k] && files[..|files|] == files;
    }
  }

  /** Before the last file it reaches, a scan has not come to the cap. */
  lemma {:induction false} ReachIsFirst(files: seq<LogFile>, offsets: map<string, nat>, decode: seq<byte> -> string,
                                        patterns: seq<Pattern>, cap: nat)
    ensures var reached := Reached(files, offsets, decode, patterns, cap);
            reached != [] ==> |ScanAll(reached[..|reached| - 1], offsets, decode, patterns).matches| < cap
  {
    hide ScanAll, Reached;
    ReachSteps(files, offsets, decode, patterns, cap);
    if files != [] {
      ReachIsFirst(files[..|files| - 1], offsets, decode, patterns, cap);
    }
  }

  /** A scan drops matches of a file when it stops at that file with more matches than the cap. */
  predicate Drops(files: seq<LogFile>, offsets: map<string, nat>, decode: seq<byte> -> string, patterns: seq<Pattern>,
                  cap: nat, key: string)
  {
    var reached := Reached(files, offsets, decode, patterns, cap);
    && reached != [] && reached[|reached| - 1].key == key
    && |ScanAll(reached, offsets, decode, patterns).matches| > cap
  }

  /** All files that a schedule of scans reaches, in order. */
  function Looked(polls: seq<seq<LogFile>>, decode: seq<byte> -> string, patterns: seq<Pattern>, cap: nat)
    : seq<LogFile>
  {
    if polls == [] then []
    else
      var before := Looked(polls[..|polls| - 1], decode, patterns, cap);
      before + Reached(polls[|polls| - 1], ScanAll(before, map[], decode, patterns).offsets, decode, patterns, cap)
  }

  /** No scan of the schedule drops matches of the file. */
  predicate NeverDrops(polls: seq<seq<LogFile>>, decode: seq<byte> -> string, patterns: seq<Pattern>, cap: nat,
                       key: string)
  {
    forall i :: 0 <= i < |polls| ==>
      !Drops(polls[i], ScanAll(Looked(polls[..i], decode, patterns, cap), map[], decode, patterns).offsets,
             decode, patterns, cap, key)
  }

  lemma NeverDropsSnoc(polls: seq<seq<LogFile>>, last: seq<LogFile>, decode: seq<byte> -> string,
                       patterns: seq<Pattern>, cap: nat, key: string)
    ensures var offsets := ScanAll(Looked(polls, decode, patterns, cap), map[], decode, patterns).offsets;
            NeverDrops(polls + [last], decode, patterns, cap, key)
            <==> NeverDrops(polls, decode, patterns, cap, key) && !Drops(last, offsets, decode, patterns, cap, key)
  {
    hide Drops, ScanAll, Looked;
    var all, n := polls + [last], |polls|;
    assert all[..n] == polls && all[n] == last;
    assert forall i :: 0 <= i < n ==> all[..i] == polls[..i] && all[i] == polls[i];
  }

  lemma {:induction false} NoHitsOfOthers(matches: seq<Match>, key: string)
    requires forall m <- matches :: m.path != key
    ensures HitsOf(matches, key) == []
  {
    if matches != [] {
      var n := |matches| - 1;
      assert forall m <- matches[..n] :: m in matches;
      NoHitsOfOthers(matches[..n], key);
    }
  }

  /** What is cut off at the cap is a nonempty end of the matches of one file. */
  lemma CutAtCap(before: seq<Match>, from: string, lines: seq<string>, patterns: seq<Pattern>, cap: nat, key: string)
    requires |before| < cap
    ensures var all := before + AllMatches(from, lines, patterns);
            && |HitsOf(Upto(all, cap), key)| <= |HitsOf(all, key)|
            && (|HitsOf(Upto(all, cap), key)| == |HitsOf(all, key)| <==> |all| <= cap || from != key)
            && (|all| <= cap || from != key ==> HitsOf(Upto(all, cap), key) == HitsOf(all, key))
  {
    hide HitsOf, AllMatches;
    var all := before + AllMatches(from, lines, patterns);
    if |all| <= cap {
      assert Upto(all, cap) == all;
    } else {
      var kept, cut := all[..cap], all[cap..];
      assert all == kept + cut;
      AllFrom(from, lines, patterns);
      assert forall i :: 0 <= i < |cut| ==> cut[i] == AllMatches(from, lines, patterns)[cap - |before| + i];
      HitsConcat(kept, cut, key);
      if from == key {
        SizeOfHits(cut, key);
      } else {
        NoHitsOfOthers(cut, key);
        assert HitsOf(kept, key) + [] == HitsOf(kept, key);
      }
    }
  }

  /** A scan loses hits of a file exactly when it drops matches of that file. */
  lemma PollLosesIff(files: seq<LogFile>, offsets: map<string, nat>, decode: seq<byte> -> string,
                     patterns: seq<Pattern>, cap: nat, key: string)
    requires cap > 0
    ensures var all := ScanAll(Reached(files, offsets, decode, patterns, cap), offsets, decode, patterns).matches;
            var kept := PollFiles(files, offsets, decode, patterns, cap).state.matches;
            && |HitsOf(kept, key)| <= |HitsOf(all, key)|
            && (|HitsOf(kept, key)| == |HitsOf(all, key)| <==> !Drops(files, offsets, decode, patterns, cap, key))
            && (!Drops(files, offsets, decode, patterns, cap, key) ==> HitsOf(kept, key) == HitsOf(all, key))
  {
    hide HitsOf, PollFiles, Reached, NewOffsets, NewLines, AllMatches;
    PollReaches(files, offsets, decode, patterns, cap);
    ReachIsFirst(files, offsets, decode, patterns, cap);
    var reached := Reached(files, offsets, decode, patterns, cap);
    if reached != [] {
      var n := |reached| - 1;
      var rest := ScanAll(reached[..n], offsets, decode, patterns);
      CutAtCap(rest.matches, reached[n].key, NewLines(reached[n], rest.offsets, decode), patterns, cap, key);
    }
  }

  /**
   What a schedule of scans with a cap loses of a file: nothing exactly when no scan drops matches of that file. The
   offsets have moved past the dropped matches all the same, so no later scan finds them.
   */
  lemma {:induction false} CapLosesTheRest(polls: seq<seq<LogFile>>, decode: seq<byte> -> string,
                                           patterns: seq<Pattern>, cap: nat, key: string)
    requires cap > 0
    ensures var run := Run(polls, decode, patterns, cap);
            var all := ScanAll(Looked(polls, decode, patterns, cap), map[], decode, patterns);
            && run.offsets == all.offsets
            && |HitsOf(run.matches, key)| <= |HitsOf(all.matches, key)|
            && (|HitsOf(run.matches, key)| == |HitsOf(all.matches, key)|
                <==> NeverDrops(polls, decode, patterns, cap, key))
            && (NeverDrops(polls, decode, patterns, cap, key) ==> HitsOf(run.matches, key) == HitsOf(all.matches, key))
  {
    hide HitsOf, PollFiles, ScanAll, Reached, Drops, NeverDrops;
    if polls == [] {
      EmptyScan(map[], decode, patterns);
      NothingDropped(decode, patterns, cap, key);
    } else {
      var n := |polls| - 1;
      var init, last := polls[..n], polls[n];
      var looked := Looked(init, decode, patterns, cap);
      var before := ScanAll(looked, map[], decode, patterns);
      CapLosesTheRest(init, decode, patterns, cap, key);
      NeverDropsSnoc(init, last, decode, patterns, cap, key);
      assert polls == init + [last];
      PollReaches(last, before.offsets, decode, patterns, cap);
      PollLosesIff(last, before.offsets, decode, patterns, cap, key);
      var reached := Reached(last, before.offsets, decode, patterns, cap);
      ScanAllConcat(looked, reached, map[], decode, patterns);
      HitsConcat(before.matches, ScanAll(reached, before.offsets, decode, patterns).matches, key);
      HitsConcat(Run(init, decode, patterns, cap).matches,
                 PollFiles(last, before.offsets, decode, patterns, cap).state.matches, key);
      hide Run, Looked;
    }
  }

  lemma NothingDropped(decode: seq<byte> -> string, patterns: seq<Pattern>, cap: nat, key: string)
    ensures NeverDrops([], decode, patterns, cap, key) && Looked([], decode, patterns, cap) == []
    ensures Run([], decode, patterns, cap) == State(map[], [])
  {
  }

  // ---------------------------------------------------------------- files that only grow

  predicate OnLineBoundary(content: seq<byte>) {
    content == [] || content[|content| - 1] == 10
  }

  /** Decoding may be done piecewise at line feeds, which it keeps. */
  ghost predicate DecodesByLines(decode: seq<byte> -> string) {
    && decode([]) == ""
    && (forall a, b :: OnLineBoundary(a) ==> decode(a + b) == decode(a) + decode(b))
    && (forall a :: a != [] && OnLineBoundary(a) ==> EndsWithLineFeed(decode(a)))
  }

  function ContentOf(eventual: map<string, seq<byte>>, key: string): seq<byte> {
    if key in eventual then eventual[key] else []
  }

  /** What is read is a part, ending with a line, of what the file will be; its size cannot be behind its past. */
  ghost predicate Grows(history: seq<LogFile>, eventual: map<string, seq<byte>>) {
    && (forall f <- history :: f.answer.Opens? ==>
          f.answer.size <= |f.answer.content| <= |ContentOf(eventual, f.key)|
          && f.answer.content == ContentOf(eventual, f.key)[..|f.answer.content|]
          && OnLineBoundary(f.answer.content))
    && forall i, j :: 0 <= i < j < |history| ==> Follows(history[i], history[j])
  }

  predicate Follows(f: LogFile, g: LogFile) {
    f.key == g.key && f.answer.Opens? && g.answer.Opens? ==> |f.answer.content| <= g.answer.size
  }

  datatype Hit = Hit(pattern: string, line: string)

  /** The matches of one file, without their line numbers, which count from where each scan started. */
  function HitsOf(matches: seq<Match>, key: string): seq<Hit> {
    if matches == [] then []
    else
      var m := matches[|matches| - 1];
      HitsOf(matches[..|matches| - 1], key) + if m.path == key then [Hit(m.pattern, m.line)] else []
  }

  /** The hits of a single scan over some lines. */
  function HitsIn(lines: seq<string>, patterns: seq<Pattern>): seq<Hit> {
    if lines == [] then []
    else
      var line := lines[|lines| - 1];
      var found := FirstPattern(line, patterns);
      HitsIn(lines[..|lines| - 1], patterns) + if found == [] then [] else [Hit(found[0], line)]
  }

  lemma {:induction false} HitsConcat(a: seq<Match>, b: seq<Match>, key: string)
    ensures HitsOf(a + b, key) == HitsOf(a, key) + HitsOf(b, key)
  {
    hide HitsOf;
    if b == [] {
      assert a + b == a;
      NoHits(key, []);
    } else {
      var n := |b| - 1;
      HitsConcat(a, b[..n], key);
      HitsSnoc(a + b[..n], b[n], key);
      HitsSnoc(b[..n], b[n], key);
      assert a + b == a + b[..n] + [b[n]] && b == b[..n] + [b[n]];
      ConcatAssociates(HitsOf(a, key), HitsOf(b[..n], key),
                       if b[n].path == key then [Hit(b[n].pattern, b[n].line)] else []);
    }
  }

  lemma HitsSnoc(matches: seq<Match>, m: Match, key: string)
    ensures HitsOf(matches + [m], key) == HitsOf(matches, key) + if m.path == key then [Hit(m.pattern, m.line)] else []
  {
    assert (matches + [m])[..|matches|] == matches;
  }

  lemma {:induction false} HitsInConcat(a: seq<string>, b: seq<string>, patterns: seq<Pattern>)
    ensures HitsIn(a + b, patterns) == HitsIn(a, patterns) + HitsIn(b, patterns)
  {
    hide HitsIn, FirstPattern;
    if b == [] {
      assert a + b == a;
      NoHits("", patterns);
    } else {
      var n := |b| - 1;
      var found := FirstPattern(b[n], patterns);
      var last := if found == [] then [] else [Hit(found[0], b[n])];
      HitsInConcat(a, b[..n], patterns);
      HitsInSnoc(a + b[..n], b[n], patterns);
      HitsInSnoc(b[..n], b[n], patterns);
      assert a + b == a + b[..n] + [b[n]] && b == b[..n] + [b[n]];
      ConcatAssociates(HitsIn(a, patterns), HitsIn(b[..n], patterns), last);
    }
  }

  lemma NoHits(key: string, patterns: seq<Pattern>)
    ensures HitsOf([], key) == [] && HitsIn([], patterns) == []
  {
  }

  lemma HitsInSnoc(lines: seq<string>, line: string, patterns: seq<Pattern>)
    ensures var found := FirstPattern(line, patterns);
            HitsIn(lines + [line], patterns)
            == HitsIn(lines, patterns) + if found == [] then [] else [Hit(found[0], line)]
  {
    assert (lines + [line])[..|lines|] == lines;
  }

  lemma {:induction false} MatchesAreHits(from: string, lines: seq<string>, patterns: seq<Pattern>, key: string)
    ensures HitsOf(AllMatches(from, lines, patterns), key) == if from == key then HitsIn(lines, patterns) else []
  {
    if lines != [] {
      var n := |lines| - 1;
      MatchesAreHits(from, lines[..n], patterns, key);
      var last := MatchOf(from, n + 1, lines[n], patterns);
      HitsConcat(AllMatches(from, lines[..n], patterns), last, key);
      if last != [] {
        assert last[..0] == [];
        assert HitsOf(last[..0], key) == [];
      }
    }
  }

  /** The lines of one file that a pass looks at, in order. */
  function Examined(files: seq<LogFile>, offsets: map<string, nat>, decode: seq<byte> -> string,
                    patterns: seq<Pattern>, key: string): seq<string>
  {
    if files == [] then []
    else
      var n := |files| - 1;
      Examined(files[..n], offsets, decode, patterns, key)
      + if files[n].key == key then NewLines(files[n], ScanAll(files[..n], offsets, decode, patterns).offsets, decode)
        else []
  }

  /** A file's hits are those of the lines looked at. */
  lemma {:induction false} HitsOfExamined(files: seq<LogFile>, decode: seq<byte> -> string, patterns: seq<Pattern>,
                                          key: string)
    ensures HitsOf(ScanAll(files, map[], decode, patterns).matches, key)
         == HitsIn(Examined(files, map[], decode, patterns, key), patterns)
  {
    if files != [] {
      hide NewLines, NewOffsets, AllMatches, HitsOf, HitsIn;
      var n := |files| - 1;
      HitsOfExamined(files[..n], decode, patterns, key);
      var rest := ScanAll(files[..n], map[], decode, patterns);
      var lines := NewLines(files[n], rest.offsets, decode);
      HitsConcat(rest.matches, AllMatches(files[n].key, lines, patterns), key);
      MatchesAreHits(files[n].key, lines, patterns, key);
      HitsInConcat(Examined(files[..n], map[], decode, patterns, key), lines, patterns);
      assert Examined(files, map[], decode, patterns, key)
          == Examined(files[..n], map[], decode, patterns, key) + if files[n].key == key then lines else [];
      assert HitsOf(rest.matches, key) + [] == HitsOf(rest.matches, key);
      assert Examined(files[..n], map[], decode, patterns, key) + []
          == Examined(files[..n], map[], decode, patterns, key);
    }
  }

  /** The stored offset is where some earlier reading of the file ended. */
  ghost predicate IsPast(offset: nat, history: seq<LogFile>, key: string) {
    offset == 0 || exists f <- history :: f.key == key && f.answer.Opens? && offset == |f.answer.content|
  }

  /** What has been read of a file is an initial part of it, ending with a line, and its lines are those looked at. */
  ghost predicate CaughtUp(history: seq<LogFile>, eventual: map<string, seq<byte>>, decode: seq<byte> -> string,
                           patterns: seq<Pattern>, key: string)
  {
    var offset, content := OffsetOf(ScanAll(history, map[], decode, patterns).offsets, key), ContentOf(eventual, key);
    && IsPast(offset, history, key) && offset <= |content| && OnLineBoundary(content[..offset])
    && Examined(history, map[], decode, patterns, key) == SplitLines(decode(content[..offset]))
  }

  lemma ReadMore(content: seq<byte>, offset: nat, end: nat, decode: seq<byte> -> string)
    requires DecodesByLines(decode) && offset <= end <= |content|
    requires OnLineBoundary(content[..offset])
    ensures SplitLines(decode(content[..end]))
         == SplitLines(decode(content[..offset])) + SplitLines(decode(content[offset..end]))
  {
    var a, b := content[..offset], content[offset..end];
    assert content[..end] == a + b;
    assert decode(a + b) == decode(a) + decode(b);
    SplitLinesConcat(decode(a), decode(b));
  }

  /** One more file looked at keeps what has been read in step with the lines looked at. */
  lemma CatchUpStep(history: seq<LogFile>, eventual: map<string, seq<byte>>, decode: seq<byte> -> string,
                    patterns: seq<Pattern>, key: string)
    requires DecodesByLines(decode) && history != [] && Grows(history, eventual)
    requires CaughtUp(history[..|history| - 1], eventual, decode, patterns, key)
    ensures CaughtUp(history, eventual, decode, patterns, key)
  {
    hide DecodesByLines, ScanAll, Examined, StartOf;
    var n := |history| - 1;
    var init, f := history[..n], history[n];
    var offset := OffsetOf(ScanAll(init, map[], decode, patterns).offsets, key);
    var content := ContentOf(eventual, key);
    assert history == init + [f];
    if f.key == key && IsRead(f, offset) {
      NotBehind(history, eventual, offset);
      Advances(init, f, decode, patterns);
      var read := f.answer.content;
      assert BytesFrom(read, offset) == content[offset..|read|];
      hide Grows;
      ReadMore(content, offset, |read|, decode);
      assert f in history;
    } else {
      StaysPut(init, f, decode, patterns, key);
      assert forall g <- init :: g in history;
    }
  }

  lemma Advances(init: seq<LogFile>, f: LogFile, decode: seq<byte> -> string, patterns: seq<Pattern>)
    requires f.answer.Opens? && f.answer.size <= |f.answer.content|
    requires var offset := OffsetOf(ScanAll(init, map[], decode, patterns).offsets, f.key);
             IsRead(f, offset) && offset <= f.answer.size
    ensures var offset := OffsetOf(ScanAll(init, map[], decode, patterns).offsets, f.key);
            && OffsetOf(ScanAll(init + [f], map[], decode, patterns).offsets, f.key) == |f.answer.content|
            && Examined(init + [f], map[], decode, patterns, f.key)
               == Examined(init, map[], decode, patterns, f.key)
                  + SplitLines(decode(BytesFrom(f.answer.content, offset)))
  {
    hide AllMatches;
    assert (init + [f])[..|init|] == init;
  }

  lemma StaysPut(init: seq<LogFile>, f: LogFile, decode: seq<byte> -> string, patterns: seq<Pattern>, key: string)
    requires f.key == key ==> !IsRead(f, OffsetOf(ScanAll(init, map[], decode, patterns).offsets, key))
    ensures OffsetOf(ScanAll(init + [f], map[], decode, patterns).offsets, key)
         == OffsetOf(ScanAll(init, map[], decode, patterns).offsets, key)
    ensures Examined(init + [f], map[], decode, patterns, key) == Examined(init, map[], decode, patterns, key)
  {
    hide AllMatches;
    assert (init + [f])[..|init|] == init;
    assert Examined(init, map[], decode, patterns, key) + [] == Examined(init, map[], decode, patterns, key);
  }

  lemma NotBehind(history: seq<LogFile>, eventual: map<string, seq<byte>>, offset: nat)
    requires history != [] && Grows(history, eventual)
    requires var n := |history| - 1; history[n].answer.Opens? && IsPast(offset, history[..n], history[n].key)
    ensures offset <= history[|history| - 1].answer.size
  {
  }

  lemma {:induction false} CatchUp(history: seq<LogFile>, eventual: map<string, seq<byte>>, decode: seq<byte> -> string,
                                   patterns: seq<Pattern>, key: string)
    requires DecodesByLines(decode) && Grows(history, eventual)
    ensures CaughtUp(history, eventual, decode, patterns, key)
  {
    if history == [] {
      assert ContentOf(eventual, key)[..0] == [];
    } else {
      GrowsUpto(history, |history| - 1, eventual);
      CatchUp(history[..|history| - 1], eventual, decode, patterns, key);
      CatchUpStep(history, eventual, decode, patterns, key);
    }
  }

  /** When the last scan reads a file to its end, the offset is that end. */
  lemma ReadToTheEnd(history: seq<LogFile>, f: LogFile, eventual: map<string, seq<byte>>, decode: seq<byte> -> string,
                     patterns: seq<Pattern>)
    requires DecodesByLines(decode) && Grows(history + [f], eventual)
    requires f.answer.Opens? && f.answer.size == |f.answer.content| == |ContentOf(eventual, f.key)|
    ensures OffsetOf(ScanAll(history + [f], map[], decode, patterns).offsets, f.key) == |ContentOf(eventual, f.key)|
  {
    hide DecodesByLines;
    var all := history + [f];
    assert all[..|history|] == history;
    GrowsUpto(all, |history|, eventual);
    CatchUp(history, eventual, decode, patterns, f.key);
    var offset := OffsetOf(ScanAll(history, map[], decode, patterns).offsets, f.key);
    NotBehind(all, eventual, offset);
  }

  /** Looking at one more file never moves an offset back. */
  lemma OffsetStepGrows(history: seq<LogFile>, eventual: map<string, seq<byte>>, decode: seq<byte> -> string,
                        patterns: seq<Pattern>, key: string)
    requires DecodesByLines(decode) && history != [] && Grows(history, eventual)
    ensures OffsetOf(ScanAll(history[..|history| - 1], map[], decode, patterns).offsets, key)
         <= OffsetOf(ScanAll(history, map[], decode, patterns).offsets, key)
  {
    hide DecodesByLines, ScanAll, Examined, StartOf;
    var n := |history| - 1;
    var init, f := history[..n], history[n];
    var offset := OffsetOf(ScanAll(init, map[], decode, patterns).offsets, key);
    assert history == init + [f];
    if f.key == key && IsRead(f, offset) {
      GrowsUpto(history, |history| - 1, eventual);
      CatchUp(init, eventual, decode, patterns, key);
      NotBehind(history, eventual, offset);
      Advances(init, f, decode, patterns);
      assert f in history;
    } else {
      StaysPut(init, f, decode, patterns, key);
    }
  }

  /** Offsets of growing files only grow. */
  lemma {:induction false} OffsetOnlyGrows(history: seq<LogFile>, k: nat, eventual: map<string, seq<byte>>,
                                           decode: seq<byte> -> string, patterns: seq<Pattern>, key: string)
    requires DecodesByLines(decode) && k <= |history| && Grows(history, eventual)
    ensures OffsetOf(ScanAll(history[..k], map[], decode, patterns).offsets, key)
         <= OffsetOf(ScanAll(history, map[], decode, patterns).offsets, key)
  {
    if k == |history| {
      assert history[..k] == history;
    } else {
      hide DecodesByLines, ScanAll, Grows;
      var init := history[..|history| - 1];
      GrowsUpto(history, |history| - 1, eventual);
      OffsetOnlyGrows(init, k, eventual, decode, patterns, key);
      OffsetStepGrows(history, eventual, decode, patterns, key);
      assert init[..k] == history[..k];
    }
  }

  /** The answer shows the file as it will stay, to its end. */
  predicate ShowsAll(f: LogFile, eventual: map<string, seq<byte>>) {
    f.answer.Opens? && f.answer.size == |f.answer.content| == |ContentOf(eventual, f.key)|
  }

  lemma GrowsUpto(history: seq<LogFile>, k: nat, eventual: map<string, seq<byte>>)
    requires k <= |history| && Grows(history, eventual)
    ensures Grows(history[..k], eventual)
  {
    assert forall f <- history[..k] :: f in history;
  }

  /** Once a scan has seen a file to its end, the stored offset is that end, whatever is looked at after. */
  lemma SeenToTheEnd(history: seq<LogFile>, i: nat, eventual: map<string, seq<byte>>, decode: seq<byte> -> string,
                     patterns: seq<Pattern>)
    requires DecodesByLines(decode) && Grows(history, eventual)
    requires i < |history| && ShowsAll(history[i], eventual)
    ensures OffsetOf(ScanAll(history, map[], decode, patterns).offsets, history[i].key)
         == |ContentOf(eventual, history[i].key)|
  {
    hide DecodesByLines, ScanAll, Grows, Examined;
    var init, f := history[..i], history[i];
    assert history[..i + 1] == init + [f];
    GrowsUpto(history, i + 1, eventual);
    ReadToTheEnd(init, f, eventual, decode, patterns);
    OffsetOnlyGrows(history, i + 1, eventual, decode, patterns, f.key);
    CatchUp(history, eventual, decode, patterns, f.key);
  }

  // ---------------------------------------------------------------- schedules over growing files

  /** Of two answers reached in a schedule the later one is not behind; what is reached is in the history. */
  lemma {:induction false} LookedGrows(polls: seq<seq<LogFile>>, eventual: map<string, seq<byte>>,
                                       decode: seq<byte> -> string, patterns: seq<Pattern>, cap: nat)
    requires Grows(History(polls), eventual)
    ensures Grows(Looked(polls, decode, patterns, cap), eventual)
    ensures forall f <- Looked(polls, decode, patterns, cap) :: f in History(polls)
  {
    hide ScanAll, Reach, Follows;
    if polls != [] {
      var n := |polls| - 1;
      var init, last := polls[..n], polls[n];
      var past, all := History(init), History(polls);
      assert all == past + last && all[..|past|] == past;
      GrowsUpto(all, |past|, eventual);
      LookedGrows(init, eventual, decode, patterns, cap);
      var before := Looked(init, decode, patterns, cap);
      var reached := Reached(last, ScanAll(before, map[], decode, patterns).offsets, decode, patterns, cap);
      assert Looked(polls, decode, patterns, cap) == before + reached;
      assert forall j :: 0 <= j < |reached| ==> reached[j] == last[j] == all[|past| + j];
      hide Looked, Reached;
      LaterGrows(before, reached, past, all, eventual);
    }
  }

  lemma LaterGrows(before: seq<LogFile>, reached: seq<LogFile>, past: seq<LogFile>, all: seq<LogFile>,
                   eventual: map<string, seq<byte>>)
    requires Grows(before, eventual) && Grows(all, eventual)
    requires |past| + |reached| <= |all| && all[..|past|] == past
    requires forall f <- before :: f in past
    requires forall j :: 0 <= j < |reached| ==> reached[j] == all[|past| + j]
    ensures Grows(before + reached, eventual)
    ensures forall f <- before + reached :: f in all
  {
    hide Follows, ContentOf, OnLineBoundary;
    var looked, m := before + reached, |before|;
    assert forall f <- past :: f in all;
    assert forall j :: 0 <= j < |reached| ==> reached[j] in all;
    forall i, j | 0 <= i < j < |looked|
      ensures Follows(looked[i], looked[j])
    {
      if j >= m {
        assert looked[j] == all[|past| + j - m];
        if i < m {
          assert looked[i] in past;
          var a :| 0 <= a < |past| && past[a] == looked[i];
          assert all[a] == past[a];
        } else {
          assert looked[i] == all[|past| + i - m];
        }
      }
    }
  }

  /**
   Whatever the schedule and the cap, while files only grow by whole lines: the offset of a file is not past its end,
   each line before it has been looked at once, in order, and the hits reported are those of one scan over these lines
   exactly when no scan has dropped matches of the file.
   */
  lemma IncrementalHitsIff(polls: seq<seq<LogFile>>, eventual: map<string, seq<byte>>, decode: seq<byte> -> string,
                           patterns: seq<Pattern>, cap: nat, key: string)
    requires cap > 0 && DecodesByLines(decode) && Grows(History(polls), eventual)
    ensures var end := OffsetOf(Run(polls, decode, patterns, cap).offsets, key);
            var content := ContentOf(eventual, key);
            && end <= |content|
            && Examined(Looked(polls, decode, patterns, cap), map[], decode, patterns, key)
               == SplitLines(decode(content[..end]))
            && (HitsOf(Run(polls, decode, patterns, cap).matches, key)
                == HitsIn(SplitLines(decode(content[..end])), patterns)
                <==> NeverDrops(polls, decode, patterns, cap, key))
  {
    hide DecodesByLines, Grows, NeverDrops, Run, ScanAll, Examined, Looked, HitsOf, HitsIn;
    var looked := Looked(polls, decode, patterns, cap);
    LookedGrows(polls, eventual, decode, patterns, cap);
    CatchUp(looked, eventual, decode, patterns, key);
    HitsOfExamined(looked, decode, patterns, key);
    CapLosesTheRest(polls, decode, patterns, cap, key);
  }

  /** When some scan has reached and seen a file to its end, that is one scan of the file's final content. */
  lemma FinalHitsIff(polls: seq<seq<LogFile>>, i: nat, eventual: map<string, seq<byte>>, decode: seq<byte> -> string,
                     patterns: seq<Pattern>, cap: nat)
    requires cap > 0 && DecodesByLines(decode) && Grows(History(polls), eventual)
    requires var looked := Looked(polls, decode, patterns, cap); i < |looked| && ShowsAll(looked[i], eventual)
    ensures var key := Looked(polls, decode, patterns, cap)[i].key;
            var content := ContentOf(eventual, key);
            && OffsetOf(Run(polls, decode, patterns, cap).offsets, key) == |content|
            && Examined(Looked(polls, decode, patterns, cap), map[], decode, patterns, key)
               == SplitLines(decode(content))
            && (HitsOf(Run(polls, decode, patterns, cap).matches, key) == HitsIn(SplitLines(decode(content)), patterns)
                <==> NeverDrops(polls, decode, patterns, cap, key))
  {
    hide DecodesByLines, Grows, NeverDrops, Run, ScanAll, Examined, Looked, HitsOf, HitsIn;
    var looked := Looked(polls, decode, patterns, cap);
    var key := looked[i].key;
    LookedGrows(polls, eventual, decode, patterns, cap);
    SeenToTheEnd(looked, i, eventual, decode, patterns);
    IncrementalHitsIff(polls, eventual, decode, patterns, cap, key);
    CapLosesTheRest(polls, decode, patterns, cap, key);
    var content := ContentOf(eventual, key);
    assert content[..|content|] == content;
  }

  /** A schedule in which no scan comes to the cap looks at every file and drops nothing. */
  lemma {:induction false} NeverFullLooksAtAll(polls: seq<seq<LogFile>>, decode: seq<byte> -> string,
                                               patterns: seq<Pattern>, cap: nat, key: string)
    requires cap > 0 && NeverFull(polls, decode, patterns, cap)
    ensures Looked(polls, decode, patterns, cap) == History(polls) && NeverDrops(polls, decode, patterns, cap, key)
  {
    hide ScanAll, PollFiles, Run, Drops, Reached, NeverDrops;
    if polls == [] {
      NothingDropped(decode, patterns, cap, key);
    } else {
      var n := |polls| - 1;
      var init, last := polls[..n], polls[n];
      assert forall i :: 0 <= i < n ==> init[..i] == polls[..i];
      NeverFullLooksAtAll(init, decode, patterns, cap, key);
      CapLosesTheRest(init, decode, patterns, cap, key);
      NeverDropsSnoc(init, last, decode, patterns, cap, key);
      assert polls == init + [last];
      NotFullDropsNothing(last, Run(init, decode, patterns, cap).offsets, decode, patterns, cap, key);
    }
  }

  lemma NotFullDropsNothing(files: seq<LogFile>, offsets: map<string, nat>, decode: seq<byte> -> string,
                            patterns: seq<Pattern>, cap: nat, key: string)
    requires cap > 0 && !PollFiles(files, offsets, decode, patterns, cap).full
    ensures Reached(files, offsets, decode, patterns, cap) == files
    ensures !Drops(files, offsets, decode, patterns, cap, key)
  {
    hide ScanAll, PollFiles;
    PollReaches(files, offsets, decode, patterns, cap);
    AllReached(files, offsets, decode, patterns, cap);
  }

  lemma {:induction false} AllReached(files: seq<LogFile>, offsets: map<string, nat>, decode: seq<byte> -> string,
                                      patterns: seq<Pattern>, cap: nat)
    requires |ScanAll(Reached(files, offsets, decode, patterns, cap), offsets, decode, patterns).matches| < cap
    ensures Reached(files, offsets, decode, patterns, cap) == files
  {
    hide ScanAll, Reach;
    ReachSteps(files, offsets, decode, patterns, cap);
    if files != [] && |ScanAll(files[..|files| - 1], offsets, decode, patterns).matches| >= cap {
      AllReached(files[..|files| - 1], offsets, decode, patterns, cap);
    }
  }

  /**
   Over any schedule of scans of files that grow by whole lines, with the cap never reached, every file that some scan
   sees to its end has been read to that end, each of its lines looked at once and in order, and its hits are those of
   one scan of its final content.
   */
  lemma IncrementalIsOneScan(polls: seq<seq<LogFile>>, i: nat, eventual: map<string, seq<byte>>,
                             decode: seq<byte> -> string, patterns: seq<Pattern>, cap: nat)
    requires cap > 0 && NeverFull(polls, decode, patterns, cap)
    requires DecodesByLines(decode) && Grows(History(polls), eventual)
    requires i < |History(polls)| && ShowsAll(History(polls)[i], eventual)
    ensures var key := History(polls)[i].key;
            var content := ContentOf(eventual, key);
            && OffsetOf(Run(polls, decode, patterns, cap).offsets, key) == |content|
            && Examined(History(polls), map[], decode, patterns, key) == SplitLines(decode(content))
            && HitsOf(Run(polls, decode, patterns, cap).matches, key) == HitsIn(SplitLines(decode(content)), patterns)
  {
    hide DecodesByLines, Grows, NeverFull, NeverDrops, Run, ScanAll, Examined, Looked, HitsOf, HitsIn;
    NeverFullLooksAtAll(polls, decode, patterns, cap, History(polls)[i].key);
    FinalHitsIff(polls, i, eventual, decode, patterns, cap);
  }

  // ---------------------------------------------------------------- one scan of a whole file

  lemma {:induction false} HitsUpto(from: string, lines: seq<string>, patterns: seq<Pattern>, cap: nat)
    ensures HitsOf(Upto(AllMatches(from, lines, patterns), cap), from) == Upto(HitsIn(lines, patterns), cap)
    ensures |AllMatches(from, lines, patterns)| == |HitsIn(lines, patterns)|
  {
    hide HitsOf, HitsIn, AllMatches;
    MatchesAreHits(from, lines, patterns, from);
    var all := AllMatches(from, lines, patterns);
    AllFrom(from, lines, patterns);
    SizeOfHits(all, from);
    if |all| >= cap {
      assert all == all[..cap] + all[cap..];
      HitsConcat(all[..cap], all[cap..], from);
      SizeOfHits(all[..cap], from);
    }
  }

  lemma {:induction false} AllFrom(from: string, lines: seq<string>, patterns: seq<Pattern>)
    ensures forall m <- AllMatches(from, lines, patterns) :: m.path == from
  {
    if lines != [] {
      AllFrom(from, lines[..|lines| - 1], patterns);
    }
  }

  lemma {:induction false} SizeOfHits(matches: seq<Match>, key: string)
    requires forall m <- matches :: m.path == key
    ensures |HitsOf(matches, key)| == |matches|
  {
    if matches != [] {
      var n := |matches| - 1;
      assert forall m <- matches[..n] :: m in matches;
      SizeOfHits(matches[..n], key);
    }
  }

  /** A single scan of a file that is there in full returns its first hits up to the cap, and a second one nothing. */
  lemma {:induction false} OneFileTwice(f: LogFile, decode: seq<byte> -> string, patterns: seq<Pattern>, cap: nat)
    requires cap > 0 && f.answer.Opens? && f.answer.size == |f.answer.content| > 0
    ensures var hits := HitsIn(SplitLines(decode(f.answer.content)), patterns);
            && HitsOf(PollFiles([f], map[], decode, patterns, cap).state.matches, f.key) == Upto(hits, cap)
            && HitsOf(Run([[f], [f]], decode, patterns, cap).matches, f.key) == Upto(hits, cap)
  {
    var content := f.answer.content;
    assert content[0..] == content;
    var lines := SplitLines(decode(content));
    assert NewLines(f, map[], decode) == lines;
    assert [f][..0] == [];
    assert PollFiles([f][..0], map[], decode, patterns, cap) == Poll(State(map[], []), false);
    LinesUptoCap(f.key, lines, patterns, cap, []);
    assert [] + AllMatches(f.key, lines, patterns) == AllMatches(f.key, lines, patterns);
    HitsUpto(f.key, lines, patterns, cap);
    SecondScan(f, decode, patterns, cap);
  }

  lemma SecondScan(f: LogFile, decode: seq<byte> -> string, patterns: seq<Pattern>, cap: nat)
    requires f.answer.Opens? && f.answer.size == |f.answer.content| > 0
    ensures Run([[f], [f]], decode, patterns, cap).matches == PollFiles([f], map[], decode, patterns, cap).state.matches
  {
    hide ScanLines, NewLines;
    NothingPolled(map[], decode, patterns, cap);
    PollFilesSnoc([], f, map[], decode, patterns, cap);
    assert [] + [f] == [f];
    var offsets := NewOffsets(f, map[]);
    assert offsets == map[f.key := f.answer.size];
    assert !IsRead(f, OffsetOf(offsets, f.key));
    NothingPolled(offsets, decode, patterns, cap);
    PollFilesSnoc([], f, offsets, decode, patterns, cap);
    Skipped(f, offsets, decode, patterns, cap, []);
    hide PollFiles;
    var first := PollFiles([f], map[], decode, patterns, cap).state;
    assert PollFiles([f], offsets, decode, patterns, cap).state.matches == [];
    var once, twice := [[f]], [[f], [f]];
    assert once[..0] == [] && twice[..1] == once;
    assert Run(once[..0], decode, patterns, cap) == State(map[], []);
    assert Run(once, decode, patterns, cap) == State(first.offsets, [] + first.matches);
    assert [] + first.matches == first.matches;
  }

  /** For a scan of one file, dropping is having more new hits than the cap. */
  lemma OneFileDropsIff(f: LogFile, offsets: map<string, nat>, decode: seq<byte> -> string, patterns: seq<Pattern>,
                        cap: nat)
    requires cap > 0
    ensures Drops([f], offsets, decode, patterns, cap, f.key)
       <==> |HitsIn(NewLines(f, offsets, decode), patterns)| > cap
  {
    hide HitsIn, AllMatches, NewLines, HitsOf;
    ReachSteps([f], offsets, decode, patterns, cap);
    EmptyScan(offsets, decode, patterns);
    assert [f][..0] == [] && [] + [f] == [f];
    ScanAllSnoc([], f, offsets, decode, patterns);
    HitsUpto(f.key, NewLines(f, offsets, decode), patterns, cap);
  }

  function AnyLine(line: string): bool {
    true
  }

  /** A log of two lines, both hits, and a cap of one: scanning it twice finds one of them. */
  lemma SecondHitIsLost()
    ensures var f := LogFile("emulebb.log", Opens(6, [120, 13, 10, 120, 13, 10]));
            var patterns := [Pattern("x", AnyLine)];
            && HitsOf(Run([[f], [f]], Utf8.Decode, patterns, 1).matches, f.key) == [Hit("x", "x")]
            && HitsIn(SplitLines(Utf8.Decode(f.answer.content)), patterns) == [Hit("x", "x"), Hit("x", "x")]
  {
    hide *;
    var content: seq<byte> := [120, 13, 10, 120, 13, 10];
    var f := LogFile("emulebb.log", Opens(6, content));
    var patterns := [Pattern("x", AnyLine)];
    TwoLines(content);
    TwoHits(patterns);
    OneFileTwice(f, Utf8.Decode, patterns, 1);
  }

  lemma TwoLines(content: seq<byte>)
    requires content == [120, 13, 10, 120, 13, 10]
    ensures SplitLines(Utf8.Decode(content)) == ["x", "x"]
  {
    hide SplitLines, CrlfText, Utf8.Decode;
    var lines := ["x", "x"];
    TwoLinesText(lines);
    TwoLinesDecode(content);
    SplitCrlfText(lines);
  }

  lemma TwoLinesText(lines: seq<string>)
    requires lines == ["x", "x"]
    ensures CrlfText(lines) == "x\r\nx\r\n"
  {
    assert lines[1..] == ["x"];
    assert Joined(["x"]) == "x";
  }

  lemma TwoLinesDecode(content: seq<byte>)
    requires content == [120, 13, 10, 120, 13, 10]
    ensures Utf8.Decode(content) == "x\r\nx\r\n"
  {
    hide Utf8.Decode;
    Utf8.AsciiDecodes(content);
  }

  lemma TwoHits(patterns: seq<Pattern>)
    requires patterns == [Pattern("x", AnyLine)]
    ensures HitsIn(["x", "x"], patterns) == [Hit("x", "x"), Hit("x", "x")]
    ensures Upto(HitsIn(["x", "x"], patterns), 1) == [Hit("x", "x")]
  {
    hide HitsIn;
    NoHits("", patterns);
    HitsInSnoc([], "x", patterns);
    HitsInSnoc(["x"], "x", patterns);
    assert [] + ["x"] == ["x"] && ["x"] + ["x"] == ["x", "x"];
    assert FirstPattern("x", patterns) == ["x"];
  }

  /** UTF-8 with replacement, the decoding that the logs are read with, may be done piecewise at line feeds. */
  lemma Utf8DecodesByLines()
    ensures DecodesByLines(Utf8.Decode)
  {
    forall a: seq<byte>, b | OnLineBoundary(a)
      ensures Utf8.Decode(a + b) == Utf8.Decode(a) + Utf8.Decode(b)
    {
      Utf8.DecodeConcat(a, b);
    }
    forall a: seq<byte> | a != [] && OnLineBoundary(a)
      ensures EndsWithLineFeed(Utf8.Decode(a))
    {
      Utf8.DecodeConcat(a, []);
    }
  }
}
