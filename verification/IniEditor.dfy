/**
 The INI section editor: an upsert and a remove that walk the lines of a text once.
 Lower-casing is a parameter: every theorem holds for any of it.
 */
module IniEditor {
  import opened TextLines

  /** What is being set: `key=value` in the section `[section]`. */
  datatype Setting = Setting(lower: string -> string, section: string, key: string, value: string)

  // ---------------------------------------------------------------- lines

  predicate IsSpace(c: char) {
    || '\t' <= c <= '\r' || '\U{1C}' <= c <= ' ' || c == '\U{85}' || c == '\U{A0}' || c == '\U{1680}'
    || '\U{2000}' <= c <= '\U{200A}' || c == '\U{2028}' || c == '\U{2029}' || c == '\U{202F}'
    || c == '\U{205F}' || c == '\U{3000}'
  }

  function StripLeft(s: string): string {
    if s != "" && IsSpace(s[0]) then StripLeft(s[1..]) else s
  }

  function StripRight(s: string): string {
    if s != "" && IsSpace(s[|s| - 1]) then StripRight(s[..|s| - 1]) else s
  }

  function Strip(s: string): string {
    StripRight(StripLeft(s))
  }

  predicate IsHeader(line: string) {
    var s := Strip(line);
    s != "" && s[0] == '[' && s[|s| - 1] == ']'
  }

  /** What comes before the first '=', or the whole line when there is none. */
  function Before(line: string): string {
    if line == "" || line[0] == '=' then "" else [line[0]] + Before(line[1..])
  }

  function KeyOf(lower: string -> string, line: string): string {
    lower(Strip(Before(line)))
  }

  function Header(section: string): string {
    "[" + section + "]"
  }

  function Rendered(st: Setting): string {
    st.key + "=" + st.value
  }

  /** The folded header that opens the target section. */
  function Target(st: Setting): string {
    st.lower(Header(st.section))
  }

  function TargetKey(st: Setting): string {
    st.lower(st.key)
  }

  // ---------------------------------------------------------------- the editors, line by line

  datatype State = State(output: seq<string>, inside: bool, inserted: bool, saw: bool)

  function Step(s: State, line: string, st: Setting): State {
    if IsHeader(line) then
      var inside := st.lower(Strip(line)) == Target(st);
      if s.inside && !s.inserted then
        State(s.output + [Rendered(st)] + [line], inside, true, s.saw || inside)
      else
        State(s.output + [line], inside, s.inserted, s.saw || inside)
    else if s.inside && KeyOf(st.lower, line) == TargetKey(st) then
      State(s.output + [Rendered(st)], s.inside, true, s.saw)
    else
      s.(output := s.output + [line])
  }

  function Run(lines: seq<string>, st: Setting): State {
    if lines == [] then State([], false, false, false)
    else Step(Run(lines[..|lines| - 1], st), lines[|lines| - 1], st)
  }

  function Finish(s: State, st: Setting): seq<string> {
    if s.saw then
      if s.inside && !s.inserted then s.output + [Rendered(st)] else s.output
    else if s.output != [] && s.output[|s.output| - 1] != "" then
      s.output + [""] + [Header(st.section)] + [Rendered(st)]
    else
      s.output + [Header(st.section)] + [Rendered(st)]
  }

  function UpsertLines(lines: seq<string>, st: Setting): seq<string> {
    Finish(Run(lines, st), st)
  }

  /** The folded header of the section that a line placed after `lines` belongs to; `[]` before any header. */
  function Current(lines: seq<string>, lower: string -> string): seq<string> {
    if lines == [] then []
    else
      var line := lines[|lines| - 1];
      if IsHeader(line) then [lower(Strip(line))] else Current(lines[..|lines| - 1], lower)
  }

  function RemoveLines(lines: seq<string>, st: Setting): seq<string> {
    if lines == [] then []
    else
      var init, line := lines[..|lines| - 1], lines[|lines| - 1];
      RemoveLines(init, st) + if IsTargetLine(init, line, st) then [] else [line]
  }

  /** `line`, coming after `before`, is a line of the target key in a target section. */
  predicate IsTargetLine(before: seq<string>, line: string, st: Setting) {
    !IsHeader(line) && Current(before, st.lower) == [Target(st)] && KeyOf(st.lower, line) == TargetKey(st)
  }

  /** Upserts one key/value pair inside a section of an INI text. */
  method UpsertIniSectionValue(text: string, st: Setting) returns (r: string)
    ensures r == CrlfText(UpsertLines(SplitLines(text), st))
  {
    assert Run([], st) == State([], false, false, false);
    hide Run, IsHeader, KeyOf, Strip, Rendered, Header, CrlfText, SplitLines;
    var sectionHeader := Header(st.section);
    var lines := SplitLines(text);
    var output: seq<string> := [];
    var inside, inserted, saw := false, false, false;
    for i := 0 to |lines|
      invariant State(output, inside, inserted, saw) == Run(lines[..i], st)
    {
      var line := lines[i];
      RunSnoc(lines[..i], line, st);
      assert lines[..i + 1] == lines[..i] + [line];
      if IsHeader(line) {
        if inside && !inserted {
          output := output + [Rendered(st)];
          inserted := true;
        }
        inside := st.lower(Strip(line)) == st.lower(sectionHeader);
        saw := saw || inside;
        output := output + [line];
      } else if inside && KeyOf(st.lower, line) == st.lower(st.key) {
        output := output + [Rendered(st)];
        inserted := true;
      } else {
        output := output + [line];
      }
    }
    assert lines[..|lines|] == lines;
    if saw {
      if inside && !inserted {
        output := output + [Rendered(st)];
      }
    } else {
      if output != [] && output[|output| - 1] != "" {
        output := output + [""];
      }
      output := output + [sectionHeader];
      output := output + [Rendered(st)];
    }
    r := CrlfText(output);
  }

  /** Removes every occurrence of one key from the matching sections of an INI text. */
  method RemoveIniSectionValue(text: string, st: Setting) returns (r: string)
    ensures r == CrlfText(RemoveLines(SplitLines(text), st))
  {
    var lines := SplitLines(text);
    var output: seq<string> := [];
    var inside := false;
    for i := 0 to |lines|
      invariant output == RemoveLines(lines[..i], st)
      invariant inside <==> Current(lines[..i], st.lower) == [Target(st)]
    {
      var line := lines[i];
      assert lines[..i + 1][..i] == lines[..i];
      if IsHeader(line) {
        inside := st.lower(Strip(line)) == st.lower(Header(st.section));
        output := output + [line];
      } else if inside && KeyOf(st.lower, line) == st.lower(st.key) {
      } else {
        output := output + [line];
      }
    }
    assert lines[..|lines|] == lines;
    r := CrlfText(output);
  }

  // ---------------------------------------------------------------- reading a setting back

  /** The lines of the key folded to `key` in the sections whose folded header is `section`, in order. */
  function Occurrences(lines: seq<string>, lower: string -> string, section: seq<string>, key: string): seq<string> {
    if lines == [] then []
    else
      var init, line := lines[..|lines| - 1], lines[|lines| - 1];
      Occurrences(init, lower, section, key)
      + if !IsHeader(line) && Current(init, lower) == section && KeyOf(lower, line) == key then [line] else []
  }

  /** The occurrences that assign something: the lines that hold an '='. */
  function Assignments(lines: seq<string>): seq<string> {
    if lines == [] then []
    else Assignments(lines[..|lines| - 1]) + if '=' in lines[|lines| - 1] then [lines[|lines| - 1]] else []
  }

  function Lookup(lines: seq<string>, lower: string -> string, section: seq<string>, key: string): seq<string> {
    Assignments(Occurrences(lines, lower, section, key))
  }

  /** The value of an assignment: what follows the first '='. */
  function ValueOf(line: string): string
    requires '=' in line
  {
    if line[0] == '=' then line[1..] else ValueOf(line[1..])
  }

  /** A setting that the file format can hold on one line. */
  predicate WellFormed(st: Setting) {
    && '=' !in st.key && Strip(st.key) == st.key
    && !IsHeader(Rendered(st))
    && BreakFree(st.section) && BreakFree(st.key) && BreakFree(st.value)
  }

  lemma {:induction false} StripKeeps(s: string)
    requires s != "" && !IsSpace(s[0]) && !IsSpace(s[|s| - 1])
    ensures Strip(s) == s
  {
    assert StripLeft(s) == s;
  }

  lemma HeaderIsHeader(section: string)
    ensures IsHeader(Header(section)) && Strip(Header(section)) == Header(section)
  {
    StripKeeps(Header(section));
  }

  lemma {:induction false} BeforeFirstEquals(key: string, value: string)
    requires '=' !in key
    ensures Before(key + "=" + value) == key
    ensures '=' in key + "=" + value && ValueOf(key + "=" + value) == value
  {
    var line := key + "=" + value;
    assert line[|key|] == '=';
    if key == "" {
      assert line[1..] == value;
    } else {
      assert line[1..] == key[1..] + "=" + value;
      BeforeFirstEquals(key[1..], value);
    }
  }

  /** The rendered line is an assignment of the value to the key. */
  lemma RenderedAssigns(st: Setting)
    requires WellFormed(st)
    ensures KeyOf(st.lower, Rendered(st)) == TargetKey(st)
    ensures '=' in Rendered(st) && ValueOf(Rendered(st)) == st.value
    ensures BreakFree(Rendered(st)) && BreakFree(Header(st.section))
  {
    BeforeFirstEquals(st.key, st.value);
  }

  lemma RunSnoc(lines: seq<string>, line: string, st: Setting)
    ensures Run(lines + [line], st) == Step(Run(lines, st), line, st)
  {
    assert (lines + [line])[..|lines|] == lines;
  }

  lemma CurrentSnoc(lines: seq<string>, line: string, lower: string -> string)
    ensures Current(lines + [line], lower) == if IsHeader(line) then [lower(Strip(line))] else Current(lines, lower)
  {
    assert (lines + [line])[..|lines|] == lines;
  }

  lemma OccurrencesSnoc(lines: seq<string>, line: string, lower: string -> string, section: seq<string>, key: string)
    ensures Occurrences(lines + [line], lower, section, key)
         == if !IsHeader(line) && Current(lines, lower) == section && KeyOf(lower, line) == key
            then Occurrences(lines, lower, section, key) + [line] else Occurrences(lines, lower, section, key)
  {
    assert (lines + [line])[..|lines|] == lines;
  }

  lemma AssignmentsSnoc(lines: seq<string>, line: string)
    ensures Assignments(lines + [line]) == if '=' in line then Assignments(lines) + [line] else Assignments(lines)
  {
    assert (lines + [line])[..|lines|] == lines;
  }

  lemma RemoveSnoc(lines: seq<string>, line: string, st: Setting)
    ensures RemoveLines(lines + [line], st)
         == if IsTargetLine(lines, line, st) then RemoveLines(lines, st) else RemoveLines(lines, st) + [line]
  {
    assert (lines + [line])[..|lines|] == lines;
  }

  // ---------------------------------------------------------------- idempotence

  lemma StepAgain(s: State, line: string, st: Setting)
    requires WellFormed(st) && Run(s.output, st) == s
    ensures Run(Step(s, line, st).output, st) == Step(s, line, st)
  {
    RenderedAssigns(st);
    if IsHeader(line) && s.inside && !s.inserted {
      RunSnoc(s.output, Rendered(st), st);
      RunSnoc(s.output + [Rendered(st)], line, st);
    } else if !IsHeader(line) && s.inside && KeyOf(st.lower, line) == TargetKey(st) {
      RunSnoc(s.output, Rendered(st), st);
    } else {
      RunSnoc(s.output, line, st);
    }
  }

  /** Running over what a run has written reaches the very state that wrote it. */
  lemma {:induction false} RunAgain(lines: seq<string>, st: Setting)
    requires WellFormed(st)
    ensures Run(Run(lines, st).output, st) == Run(lines, st)
  {
    if lines != [] {
      RunAgain(lines[..|lines| - 1], st);
      StepAgain(Run(lines[..|lines| - 1], st), lines[|lines| - 1], st);
    }
  }

  lemma {:induction false} OutsideUntilSeen(lines: seq<string>, st: Setting)
    ensures var s := Run(lines, st);
            (s.inside ==> s.saw) && (s.inserted ==> s.saw) && (s.saw ==> s.inside || s.inserted)
  {
    if lines != [] {
      OutsideUntilSeen(lines[..|lines| - 1], st);
    }
  }

  /** The state after a new section has been written at the end. */
  lemma RunNewSection(lines: seq<string>, st: Setting)
    requires WellFormed(st) && !Run(lines, st).saw && Run(lines, st).output == lines
    ensures var out := lines + [Header(st.section)] + [Rendered(st)];
            Run(out, st) == State(out, true, true, true)
  {
    OutsideUntilSeen(lines, st);
    HeaderIsHeader(st.section);
    RenderedAssigns(st);
    RunSnoc(lines, Header(st.section), st);
    RunSnoc(lines + [Header(st.section)], Rendered(st), st);
  }

  /** The state reached over a finished output: the key is set and nothing is pending. */
  lemma RunFinished(lines: seq<string>, st: Setting)
    requires WellFormed(st)
    ensures var out := UpsertLines(lines, st); var s := Run(out, st);
            s.output == out && s.saw && s.inserted
  {
    var s := Run(lines, st);
    RunAgain(lines, st);
    OutsideUntilSeen(lines, st);
    if s.saw {
      RenderedAssigns(st);
      RunSnoc(s.output, Rendered(st), st);
    } else {
      RunSnoc(s.output, "", st);
      RunNewSection(s.output, st);
      RunNewSection(s.output + [""], st);
    }
  }

  lemma UpsertLinesIdempotent(lines: seq<string>, st: Setting)
    requires WellFormed(st)
    ensures UpsertLines(UpsertLines(lines, st), st) == UpsertLines(lines, st)
  {
    RunFinished(lines, st);
  }

  lemma BreakFreeSnoc(lines: seq<string>, line: string)
    requires AllBreakFree(lines) && BreakFree(line)
    ensures AllBreakFree(lines + [line])
  {
  }

  lemma {:induction false} RunBreakFree(lines: seq<string>, st: Setting)
    requires WellFormed(st) && AllBreakFree(lines)
    ensures AllBreakFree(Run(lines, st).output)
  {
    if lines != [] {
      var s, line := Run(lines[..|lines| - 1], st), lines[|lines| - 1];
      RunBreakFree(lines[..|lines| - 1], st);
      RenderedAssigns(st);
      BreakFreeSnoc(s.output, line);
      BreakFreeSnoc(s.output, Rendered(st));
      BreakFreeSnoc(s.output + [Rendered(st)], line);
    }
  }

  lemma UpsertBreakFree(lines: seq<string>, st: Setting)
    requires WellFormed(st) && AllBreakFree(lines)
    ensures AllBreakFree(UpsertLines(lines, st)) && UpsertLines(lines, st) != []
  {
    var out := Run(lines, st).output;
    RunBreakFree(lines, st);
    RenderedAssigns(st);
    RunFinished(lines, st);
    BreakFreeSnoc(out, Rendered(st));
    BreakFreeSnoc(out, "");
    BreakFreeSnoc(out, Header(st.section));
    BreakFreeSnoc(out + [""], Header(st.section));
    BreakFreeSnoc(out + [Header(st.section)], Rendered(st));
    BreakFreeSnoc(out + [""] + [Header(st.section)], Rendered(st));
  }

  /** The lines that a reader of the written text sees. */
  function AfterUpsert(text: string, st: Setting): seq<string> {
    SplitLines(CrlfText(UpsertLines(SplitLines(text), st)))
  }

  lemma ReadBack(text: string, st: Setting)
    requires WellFormed(st)
    ensures AfterUpsert(text, st) == UpsertLines(SplitLines(text), st)
  {
    SplitLinesBreakFree(text);
    UpsertBreakFree(SplitLines(text), st);
    SplitCrlfText(UpsertLines(SplitLines(text), st));
  }

  /** Upserting the same setting a second time leaves the whole text as it is. */
  lemma UpsertTextIdempotent(text: string, st: Setting)
    requires WellFormed(st)
    ensures var once := CrlfText(UpsertLines(SplitLines(text), st));
            CrlfText(UpsertLines(SplitLines(once), st)) == once
  {
    ReadBack(text, st);
    UpsertLinesIdempotent(SplitLines(text), st);
  }

  // ---------------------------------------------------------------- what an upsert sets and what it keeps

  lemma {:induction false} RunInside(lines: seq<string>, st: Setting)
    ensures Run(lines, st).inside <==> Current(lines, st.lower) == [Target(st)]
  {
    if lines != [] {
      RunInside(lines[..|lines| - 1], st);
    }
  }

  lemma {:induction false} RunKeepsSections(lines: seq<string>, st: Setting)
    requires WellFormed(st)
    ensures Current(Run(lines, st).output, st.lower) == Current(lines, st.lower)
  {
    if lines != [] {
      var s, line := Run(lines[..|lines| - 1], st), lines[|lines| - 1];
      RunKeepsSections(lines[..|lines| - 1], st);
      RunInside(lines[..|lines| - 1], st);
      CurrentSnoc(s.output, line, st.lower);
      CurrentSnoc(s.output, Rendered(st), st.lower);
      CurrentSnoc(s.output + [Rendered(st)], line, st.lower);
    }
  }

  predicate AllAre(lines: seq<string>, line: string) {
    forall i :: 0 <= i < |lines| ==> lines[i] == line
  }

  function TargetLines(lines: seq<string>, st: Setting): seq<string> {
    Occurrences(lines, st.lower, [Target(st)], TargetKey(st))
  }

  /** The target lines of an output all hold the value, and there is one just when something was inserted. */
  predicate SetSoFar(s: State, st: Setting) {
    AllAre(TargetLines(s.output, st), Rendered(st)) && (s.inserted <==> TargetLines(s.output, st) != [])
  }

  lemma TargetLinesSnoc(lines: seq<string>, line: string, st: Setting)
    ensures TargetLines(lines + [line], st)
         == if IsTargetLine(lines, line, st) then TargetLines(lines, st) + [line] else TargetLines(lines, st)
  {
    OccurrencesSnoc(lines, line, st.lower, [Target(st)], TargetKey(st));
  }

  lemma RenderedExtends(lines: seq<string>, st: Setting)
    requires WellFormed(st) && AllAre(TargetLines(lines, st), Rendered(st))
    requires Current(lines, st.lower) == [Target(st)]
    ensures AllAre(TargetLines(lines + [Rendered(st)], st), Rendered(st))
    ensures TargetLines(lines + [Rendered(st)], st) != []
  {
    RenderedAssigns(st);
    TargetLinesSnoc(lines, Rendered(st), st);
  }

  lemma StepSets(s: State, line: string, st: Setting)
    requires WellFormed(st) && SetSoFar(s, st)
    requires s.inside <==> Current(s.output, st.lower) == [Target(st)]
    ensures SetSoFar(Step(s, line, st), st)
  {
    if IsHeader(line) {
      if s.inside && !s.inserted {
        RenderedExtends(s.output, st);
        TargetLinesSnoc(s.output + [Rendered(st)], line, st);
      } else {
        TargetLinesSnoc(s.output, line, st);
      }
    } else if s.inside && KeyOf(st.lower, line) == TargetKey(st) {
      RenderedExtends(s.output, st);
    } else {
      TargetLinesSnoc(s.output, line, st);
    }
  }

  lemma {:induction false} RunSets(lines: seq<string>, st: Setting)
    requires WellFormed(st)
    ensures SetSoFar(Run(lines, st), st)
  {
    if lines != [] {
      var init := lines[..|lines| - 1];
      RunSets(init, st);
      RunInside(init, st);
      RunKeepsSections(init, st);
      StepSets(Run(init, st), lines[|lines| - 1], st);
    }
  }

  /** After an upsert the key occurs in a matching section, and every occurrence there holds the value. */
  lemma UpsertSets(text: string, st: Setting)
    requires WellFormed(st)
    ensures var found := TargetLines(AfterUpsert(text, st), st);
            found != [] && forall line :: line in found ==> '=' in line && ValueOf(line) == st.value
  {
    var lines := SplitLines(text);
    ReadBack(text, st);
    RunFinished(lines, st);
    RunSets(UpsertLines(lines, st), st);
    RenderedAssigns(st);
  }

  lemma StepKeepsOthers(s: State, before: seq<string>, line: string, st: Setting, section: seq<string>, key: string)
    requires WellFormed(st) && (section != [Target(st)] || key != TargetKey(st))
    requires Current(s.output, st.lower) == Current(before, st.lower)
    requires s.inside <==> Current(before, st.lower) == [Target(st)]
    requires Occurrences(s.output, st.lower, section, key) == Occurrences(before, st.lower, section, key)
    ensures Occurrences(Step(s, line, st).output, st.lower, section, key)
         == Occurrences(before + [line], st.lower, section, key)
  {
    RenderedAssigns(st);
    OccurrencesSnoc(before, line, st.lower, section, key);
    if IsHeader(line) {
      if s.inside && !s.inserted {
        OccurrencesSnoc(s.output, Rendered(st), st.lower, section, key);
        OccurrencesSnoc(s.output + [Rendered(st)], line, st.lower, section, key);
      } else {
        OccurrencesSnoc(s.output, line, st.lower, section, key);
      }
    } else if s.inside && KeyOf(st.lower, line) == TargetKey(st) {
      OccurrencesSnoc(s.output, Rendered(st), st.lower, section, key);
    } else {
      OccurrencesSnoc(s.output, line, st.lower, section, key);
    }
  }

  lemma {:induction false} RunKeepsOthers(lines: seq<string>, st: Setting, section: seq<string>, key: string)
    requires WellFormed(st) && (section != [Target(st)] || key != TargetKey(st))
    ensures Occurrences(Run(lines, st).output, st.lower, section, key) == Occurrences(lines, st.lower, section, key)
  {
    if lines != [] {
      var init, line := lines[..|lines| - 1], lines[|lines| - 1];
      RunKeepsOthers(init, st, section, key);
      RunInside(init, st);
      RunKeepsSections(init, st);
      StepKeepsOthers(Run(init, st), init, line, st, section, key);
      assert init + [line] == lines;
    }
  }

  lemma LookupSnoc(lines: seq<string>, line: string, lower: string -> string, section: seq<string>, key: string)
    requires IsHeader(line) || '=' !in line || Current(lines, lower) != section || KeyOf(lower, line) != key
    ensures Lookup(lines + [line], lower, section, key) == Lookup(lines, lower, section, key)
  {
    OccurrencesSnoc(lines, line, lower, section, key);
    if !IsHeader(line) && Current(lines, lower) == section && KeyOf(lower, line) == key {
      AssignmentsSnoc(Occurrences(lines, lower, section, key), line);
    }
  }

  lemma AddingSectionKeepsOthers(lines: seq<string>, st: Setting, section: seq<string>, key: string)
    requires WellFormed(st) && (section != [Target(st)] || key != TargetKey(st))
    ensures Lookup(lines + [Header(st.section)] + [Rendered(st)], st.lower, section, key)
         == Lookup(lines, st.lower, section, key)
  {
    HeaderIsHeader(st.section);
    RenderedAssigns(st);
    CurrentSnoc(lines, Header(st.section), st.lower);
    LookupSnoc(lines, Header(st.section), st.lower, section, key);
    LookupSnoc(lines + [Header(st.section)], Rendered(st), st.lower, section, key);
  }

  /** Every other (section, key) pair is looked up as before, duplicates and order included. */
  lemma UpsertKeepsOthers(text: string, st: Setting, section: seq<string>, key: string)
    requires WellFormed(st) && (section != [Target(st)] || key != TargetKey(st))
    ensures Lookup(AfterUpsert(text, st), st.lower, section, key)
         == Lookup(SplitLines(text), st.lower, section, key)
  {
    var lines := SplitLines(text);
    var s := Run(lines, st);
    ReadBack(text, st);
    RunKeepsOthers(lines, st, section, key);
    RunInside(lines, st);
    RunKeepsSections(lines, st);
    RenderedAssigns(st);
    if s.saw {
      if s.inside && !s.inserted {
        LookupSnoc(s.output, Rendered(st), st.lower, section, key);
      }
    } else {
      LookupSnoc(s.output, "", st.lower, section, key);
      AddingSectionKeepsOthers(s.output, st, section, key);
      AddingSectionKeepsOthers(s.output + [""], st, section, key);
    }
  }

  // ---------------------------------------------------------------- removing what was upserted

  predicate SectionExists(lines: seq<string>, st: Setting) {
    exists i :: 0 <= i < |lines| && IsHeader(lines[i]) && st.lower(Strip(lines[i])) == Target(st)
  }

  lemma {:induction false} SawIffExists(lines: seq<string>, st: Setting)
    ensures Run(lines, st).saw <==> SectionExists(lines, st)
  {
    if lines != [] {
      SawIffExists(lines[..|lines| - 1], st);
    }
  }

  lemma {:induction false} RemoveDropsOccurrences(lines: seq<string>, st: Setting)
    ensures var found := TargetLines(lines, st);
            |RemoveLines(lines, st)| + |found| == |lines| && (found == [] ==> RemoveLines(lines, st) == lines)
  {
    if lines != [] {
      RemoveDropsOccurrences(lines[..|lines| - 1], st);
    }
  }

  lemma RemoveAfterStep(s: State, before: seq<string>, line: string, st: Setting)
    requires WellFormed(st) && Current(s.output, st.lower) == Current(before, st.lower)
    requires s.inside <==> Current(before, st.lower) == [Target(st)]
    requires RemoveLines(s.output, st) == RemoveLines(before, st)
    ensures RemoveLines(Step(s, line, st).output, st) == RemoveLines(before + [line], st)
  {
    RenderedAssigns(st);
    RemoveSnoc(before, line, st);
    RemoveSnoc(s.output, Rendered(st), st);
    if IsHeader(line) && s.inside && !s.inserted {
      RemoveSnoc(s.output + [Rendered(st)], line, st);
    } else {
      RemoveSnoc(s.output, line, st);
    }
  }

  lemma {:induction false} RemoveAfterRun(lines: seq<string>, st: Setting)
    requires WellFormed(st)
    ensures RemoveLines(Run(lines, st).output, st) == RemoveLines(lines, st)
  {
    if lines != [] {
      var init, line := lines[..|lines| - 1], lines[|lines| - 1];
      RemoveAfterRun(init, st);
      RunInside(init, st);
      RunKeepsSections(init, st);
      RemoveAfterStep(Run(init, st), init, line, st);
      assert init + [line] == lines;
    }
  }

  lemma {:induction false} UnseenRunKeepsLines(lines: seq<string>, st: Setting)
    requires !Run(lines, st).saw
    ensures Run(lines, st).output == lines && RemoveLines(lines, st) == lines
  {
    if lines != [] {
      OutsideUntilSeen(lines[..|lines| - 1], st);
      UnseenRunKeepsLines(lines[..|lines| - 1], st);
      RunInside(lines[..|lines| - 1], st);
    }
  }

  /** Remove undoes upsert, down to the exact lines, just when the section was there and the key was not. */
  lemma RemoveUndoesUpsert(text: string, st: Setting)
    requires WellFormed(st)
    ensures var lines := SplitLines(text);
            RemoveLines(AfterUpsert(text, st), st) == lines
            <==> SectionExists(lines, st) && TargetLines(lines, st) == []
  {
    var lines := SplitLines(text);
    var s := Run(lines, st);
    ReadBack(text, st);
    SawIffExists(lines, st);
    RemoveAfterRun(lines, st);
    RemoveDropsOccurrences(lines, st);
    if s.saw {
      RunInside(lines, st);
      RunKeepsSections(lines, st);
      RenderedAssigns(st);
      RemoveSnoc(s.output, Rendered(st), st);
    } else {
      UnseenRunKeepsLines(lines, st);
      RemoveSnoc(lines, "", st);
      RemoveNewSection(lines, st);
      RemoveNewSection(lines + [""], st);
    }
  }

  lemma RemoveNewSection(lines: seq<string>, st: Setting)
    ensures |RemoveLines(lines + [Header(st.section)] + [Rendered(st)], st)| > |RemoveLines(lines, st)|
  {
    HeaderIsHeader(st.section);
    RemoveSnoc(lines, Header(st.section), st);
    RemoveSnoc(lines + [Header(st.section)], Rendered(st), st);
  }

  // ---------------------------------------------------------------- texts that remove does not bring back

  /** A key that stood there is lost with the value that replaced it; a section that did not stays behind. */
  lemma RemoveMayNotUndo(lower: string -> string)
    ensures var st := Setting(lower, "s", "k", "2");
            && WellFormed(st)
            && RemoveLines(AfterUpsert("[s]\r\nk=1\r\n", st), st) != SplitLines("[s]\r\nk=1\r\n")
            && RemoveLines(AfterUpsert("", st), st) != SplitLines("")
  {
    hide AfterUpsert, RemoveLines, Occurrences, WellFormed;
    var was, st := Setting(lower, "s", "k", "1"), Setting(lower, "s", "k", "2");
    LetterKeyIsWellFormed(was);
    LetterKeyIsWellFormed(st);
    TwoLineText();
    KeyStands(was);
    RemoveUndoesUpsert("[s]\r\nk=1\r\n", st);
    RemoveUndoesUpsert("", st);
  }

  lemma LetterKeyIsWellFormed(st: Setting)
    requires st.section == "s" && st.key == "k" && (st.value == "1" || st.value == "2")
    ensures WellFormed(st)
  {
    StripKeeps("k");
    assert Rendered(st) == ['k', '=', st.value[0]];
    StripKeeps(Rendered(st));
  }

  lemma TwoLineText()
    ensures SplitLines("[s]\r\nk=1\r\n") == ["[s]", "k=1"]
  {
    hide SplitLines;
    var lines := ["[s]", "k=1"];
    assert lines[1..] == ["k=1"] && Joined(["k=1"]) == "k=1";
    assert CrlfText(lines) == "[s]\r\nk=1\r\n";
    SplitCrlfText(lines);
  }

  lemma KeyStands(st: Setting)
    requires WellFormed(st) && st.section == "s" && st.key == "k" && st.value == "1"
    ensures TargetLines(["[s]", "k=1"], st) != []
  {
    hide Occurrences, IsHeader, Strip, KeyOf;
    assert Header("s") == "[s]" && Rendered(st) == "k=1";
    HeaderIsHeader("s");
    RenderedAssigns(st);
    CurrentSnoc([], "[s]", st.lower);
    OccurrencesSnoc(["[s]"], "k=1", st.lower, [Target(st)], TargetKey(st));
    assert [] + ["[s]"] == ["[s]"] && ["[s]"] + ["k=1"] == ["[s]", "k=1"];
  }
}
