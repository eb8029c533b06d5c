/** Splitting a text into lines as Python's `str.splitlines` does, and joining lines with CRLF. */
module TextLines {

  /** The characters that end a line. */
  predicate IsBreak(c: char) {
    || c == '\n' || c == '\r' || c == '\U{0B}' || c == '\U{0C}'
    || c == '\U{1C}' || c == '\U{1D}' || c == '\U{1E}'
    || c == '\U{85}' || c == '\U{2028}' || c == '\U{2029}'
  }

  predicate BreakFree(s: string) {
    forall i :: 0 <= i < |s| ==> !IsBreak(s[i])
  }

  predicate AllBreakFree(lines: seq<string>) {
    forall i :: 0 <= i < |lines| ==> BreakFree(lines[i])
  }

  /** The index of the first line-ending character, or the length when there is none. */
  function LineEnd(s: string): (n: nat)
    ensures n <= |s|
  {
    if s == "" || IsBreak(s[0]) then 0 else 1 + LineEnd(s[1..])
  }

  /** The length of the line ending at `n`: CR LF counts as one. */
  function BreakLength(s: string, n: nat): (k: nat)
    requires n < |s|
    ensures 1 <= k && n + k <= |s|
  {
    if s[n] == '\r' && n + 1 < |s| && s[n + 1] == '\n' then 2 else 1
  }

  function SplitLines(s: string): seq<string>
  {
    if s == "" then []
    else
      var n := LineEnd(s);
      if n == |s| then [s]
      else [s[..n]] + SplitLines(s[n + BreakLength(s, n)..])
  }

  function Joined(lines: seq<string>): string {
    if |lines| == 0 then ""
    else if |lines| == 1 then lines[0]
    else lines[0] + "\r\n" + Joined(lines[1..])
  }

  /** The text both editors write: the lines joined by CRLF, with one more CRLF at the end. */
  function CrlfText(lines: seq<string>): string {
    Joined(lines) + "\r\n"
  }

  lemma {:induction false} LineEndFound(s: string)
    ensures BreakFree(s[..LineEnd(s)])
    ensures LineEnd(s) < |s| ==> IsBreak(s[LineEnd(s)])
  {
    if s != "" && !IsBreak(s[0]) {
      LineEndFound(s[1..]);
      var n := LineEnd(s[1..]);
      assert s[..1 + n] == [s[0]] + s[1..][..n];
    }
  }

  /** A line of none of the ten characters, and behind it one of them, or CR LF, and the rest of the text. */
  lemma SplitAtBreak(line: string, c: char, rest: string)
    requires forall x <- line :: x !in "\n\r\U{0B}\U{0C}\U{1C}\U{1D}\U{1E}\U{85}\U{2028}\U{2029}"
    requires c in "\n\r\U{0B}\U{0C}\U{1C}\U{1D}\U{1E}\U{85}\U{2028}\U{2029}"
    ensures SplitLines(line) == if line == "" then [] else [line]
    ensures !(c == '\r' && rest != "" && rest[0] == '\n') ==>
              SplitLines(line + [c] + rest) == [line] + SplitLines(rest)
    ensures SplitLines(line + "\r\n" + rest) == [line] + SplitLines(rest)
  {
    hide SplitLines, IsBreak;
    BreaksAre(c);
    BreaksAre('\r');
    forall x <- line
      ensures !IsBreak(x)
    {
      BreaksAre(x);
    }
    EndOfLine(line, "");
    assert line + "" == line;
    EndOfLine(line, [c] + rest);
    assert line + ([c] + rest) == line + [c] + rest;
    EndOfLine(line, "\r\n" + rest);
    assert line + ("\r\n" + rest) == line + "\r\n" + rest;
    if !(c == '\r' && rest != "" && rest[0] == '\n') {
      CutAt(line, [c], rest);
    }
    CutAt(line, "\r\n", rest);
    WholeLine(line);
  }

  lemma BreaksAre(c: char)
    ensures IsBreak(c) <==> c in "\n\r\U{0B}\U{0C}\U{1C}\U{1D}\U{1E}\U{85}\U{2028}\U{2029}"
  {
  }

  lemma {:induction false} EndOfLine(line: string, rest: string)
    requires (forall x <- line :: !IsBreak(x)) && (rest == "" || IsBreak(rest[0]))
    ensures LineEnd(line + rest) == |line|
  {
    if line == "" {
      assert line + rest == rest;
    } else {
      assert line[0] in line && forall x <- line[1..] :: x in line;
      assert (line + rest)[1..] == line[1..] + rest;
      EndOfLine(line[1..], rest);
    }
  }

  lemma CutAt(line: string, brk: string, rest: string)
    requires brk != "" && LineEnd(line + brk + rest) == |line|
    requires BreakLength(line + brk + rest, |line|) == |brk|
    ensures SplitLines(line + brk + rest) == [line] + SplitLines(rest)
  {
    var s := line + brk + rest;
    assert s[..|line|] == line && s[|line| + |brk|..] == rest;
  }

  lemma WholeLine(line: string)
    requires LineEnd(line) == |line|
    ensures SplitLines(line) == if line == "" then [] else [line]
  {
    assert line[..|line|] == line;
  }

  /** No line of a text holds a line break. */
  lemma {:induction false} SplitLinesBreakFree(s: string)
    ensures AllBreakFree(SplitLines(s))
    decreases |s|
  {
    if s != "" {
      var n := LineEnd(s);
      LineEndFound(s);
      if n == |s| {
        assert s[..n] == s;
      } else {
        SplitLinesBreakFree(s[n + BreakLength(s, n)..]);
      }
    }
  }

  lemma {:induction false} LineEndIs(s: string, n: nat)
    requires n < |s| && BreakFree(s[..n]) && IsBreak(s[n])
    ensures LineEnd(s) == n
  {
    if n > 0 {
      assert s[..n][0] == s[0];
      assert s[1..][..n - 1] == s[..n][1..];
      LineEndIs(s[1..], n - 1);
    }
  }

  /** Reading back what was written gives the lines that were written. */
  lemma {:induction false} SplitCrlfText(lines: seq<string>)
    requires lines != [] && AllBreakFree(lines)
    ensures SplitLines(CrlfText(lines)) == lines
  {
    var text := CrlfText(lines);
    var n := |lines[0]|;
    if |lines| == 1 {
      assert text == lines[0] + "\r\n";
      assert text[..n] == lines[0];
      LineEndIs(text, n);
      assert text[n + 2..] == "";
    } else {
      var rest := CrlfText(lines[1..]);
      assert text == lines[0] + "\r\n" + rest;
      assert text[..n] == lines[0];
      LineEndIs(text, n);
      assert text[n + 2..] == rest;
      SplitCrlfText(lines[1..]);
    }
  }

  predicate EndsWithLineFeed(s: string) {
    s != "" && s[|s| - 1] == '\n'
  }

  /** A text cut just after a line feed splits piecewise. */
  lemma {:induction false} SplitLinesConcat(a: string, b: string)
    requires a == "" || EndsWithLineFeed(a)
    ensures SplitLines(a + b) == SplitLines(a) + SplitLines(b)
    decreases |a|
  {
    if a == "" {
      assert a + b == b;
    } else {
      var n := LineEnd(a);
      EndsInsideText(a);
      var rest := a[n + BreakLength(a, n)..];
      SplitLinesConcat(rest, b);
      FirstLine(a, n);
      FirstLineOfConcat(a, b, n);
      ConcatAssociates([a[..n]], SplitLines(rest), SplitLines(b));
    }
  }

  lemma ConcatAssociates<T>(a: seq<T>, b: seq<T>, c: seq<T>)
    ensures a + (b + c) == a + b + c
  {
  }

  lemma EndsInsideText(a: string)
    requires EndsWithLineFeed(a)
    ensures LineEnd(a) < |a| && BreakFree(a[..LineEnd(a)]) && IsBreak(a[LineEnd(a)])
    ensures var rest := a[LineEnd(a) + BreakLength(a, LineEnd(a))..]; rest == "" || EndsWithLineFeed(rest)
  {
    LineEndFound(a);
    assert a[..|a|] == a;
  }

  lemma FirstLineOfConcat(a: string, b: string, n: nat)
    requires n < |a| && BreakFree(a[..n]) && IsBreak(a[n]) && EndsWithLineFeed(a)
    ensures SplitLines(a + b) == [a[..n]] + SplitLines(a[n + BreakLength(a, n)..] + b)
  {
    var text := a + b;
    assert text[..n] == a[..n];
    assert BreakLength(text, n) == BreakLength(a, n);
    assert text[n + BreakLength(a, n)..] == a[n + BreakLength(a, n)..] + b;
    LineEndIs(text, n);
    FirstLine(text, n);
  }

  lemma FirstLine(s: string, n: nat)
    requires n < |s| && LineEnd(s) == n
    ensures SplitLines(s) == [s[..n]] + SplitLines(s[n + BreakLength(s, n)..])
  {
  }
}
