/** Where an upsert puts its line and what it does to every other one; which lines a remove drops. */
module IniMeaning {
  import opened TextLines
  import opened IniEditor

  // ---------------------------------------------------------------- sections, names and keys

  /** The 29 blanks, by code point. */
  lemma BlanksAre(c: char)
    ensures IsSpace(c) <==>
            c as int in {0x09, 0x0A, 0x0B, 0x0C, 0x0D, 0x1C, 0x1D, 0x1E, 0x1F, 0x20, 0x85, 0xA0, 0x1680, 0x2000, 0x2001,
                         0x2002, 0x2003, 0x2004, 0x2005, 0x2006, 0x2007, 0x2008, 0x2009, 0x200A, 0x2028, 0x2029, 0x202F,
                         0x205F, 0x3000}
  {
  }

  /** Blanks are taken off both ends, and nothing else. */
  lemma {:induction false} StripLeftIs(s: string) returns (a: nat)
    ensures a <= |s| && StripLeft(s) == s[a..]
    ensures (forall i :: 0 <= i < a ==> IsSpace(s[i])) && (a < |s| ==> !IsSpace(s[a]))
  {
    hide IsSpace;
    a := 0;
    if s != "" && IsSpace(s[0]) {
      a := StripLeftIs(s[1..]);
      assert s[1..][a..] == s[a + 1..];
      assert forall i :: 0 < i < a + 1 ==> s[i] == s[1..][i - 1];
      a := a + 1;
    }
  }

  lemma {:induction false} StripRightIs(s: string) returns (b: nat)
    ensures b <= |s| && StripRight(s) == s[..b]
    ensures (forall i :: b <= i < |s| ==> IsSpace(s[i])) && (b > 0 ==> !IsSpace(s[b - 1]))
  {
    hide IsSpace;
    b := |s|;
    if s != "" && IsSpace(s[|s| - 1]) {
      b := StripRightIs(s[..|s| - 1]);
      assert s[..|s| - 1][..b] == s[..b];
    }
  }

  /** The stripped text lies from `a` to `b`: blanks before and behind, none at its ends. */
  lemma StripIs(s: string) returns (a: nat, b: nat)
    ensures a <= b <= |s| && Strip(s) == s[a..b]
    ensures forall i :: 0 <= i < |s| && !(a <= i < b) ==> IsSpace(s[i])
    ensures a < b ==> !IsSpace(s[a]) && !IsSpace(s[b - 1])
  {
    hide IsSpace, StripLeft, StripRight;
    a := StripLeftIs(s);
    var rest := StripRightIs(s[a..]);
    b := a + rest;
    assert s[a..][..rest] == s[a..b];
    forall i | 0 <= i < |s| && !(a <= i < b)
      ensures IsSpace(s[i])
    {
      assert i >= a ==> s[i] == s[a..][i - a];
    }
    assert a < b ==> s[a] == s[a..][0] && s[b - 1] == s[a..][rest - 1];
    if a == |s| {
      assert s[a..] == "";
    }
  }

  /** The name of a line ends at its first '=', or at its end. */
  lemma {:induction false} BeforeIs(line: string) returns (k: nat)
    ensures k <= |line| && Before(line) == line[..k]
    ensures (forall i :: 0 <= i < k ==> line[i] != '=') && (k < |line| ==> line[k] == '=')
  {
    k := 0;
    if line != "" && line[0] != '=' {
      k := BeforeIs(line[1..]);
      assert line[..k + 1] == [line[0]] + line[1..][..k];
      k := k + 1;
    }
  }

  /** A line belongs to the section of the last header before it. */
  lemma {:induction false} CurrentIs(lines: seq<string>, lower: string -> string) returns (k: nat)
    ensures Current(lines, lower) == [] <==> forall i :: 0 <= i < |lines| ==> !IsHeader(lines[i])
    ensures Current(lines, lower) != [] ==>
              && k < |lines| && IsHeader(lines[k]) && Current(lines, lower) == [lower(Strip(lines[k]))]
              && forall i :: k < i < |lines| ==> !IsHeader(lines[i])
  {
    hide IsHeader, Strip;
    k := 0;
    if lines != [] {
      var n := |lines| - 1;
      k := CurrentIs(lines[..n], lower);
      if IsHeader(lines[n]) {
        k := n;
      }
    }
  }

  // ---------------------------------------------------------------- what an upsert writes

  /** Every line of the key in a matching section becomes the new one, in its place; no other line changes. */
  function Rewritten(lines: seq<string>, st: Setting): seq<string> {
    if lines == [] then []
    else
      var init, line := lines[..|lines| - 1], lines[|lines| - 1];
      Rewritten(init, st) + [if IsTargetLine(init, line, st) then st.key + "=" + st.value else line]
  }

  lemma {:induction false} RewrittenAt(lines: seq<string>, st: Setting)
    ensures |Rewritten(lines, st)| == |lines|
    ensures forall i :: 0 <= i < |lines| ==>
              Rewritten(lines, st)[i] ==
              if IsTargetLine(lines[..i], lines[i], st) then st.key + "=" + st.value else lines[i]
  {
    hide IsTargetLine;
    if lines != [] {
      var n := |lines| - 1;
      RewrittenAt(lines[..n], st);
      assert forall i :: 0 <= i < n ==> lines[..n][..i] == lines[..i];
    }
  }

  predicate OpensTarget(line: string, st: Setting) {
    IsHeader(line) && st.lower(Strip(line)) == st.lower("[" + st.section + "]")
  }

  /** The first matching section: its header is line `f`, and it ends before line `e`. */
  predicate FirstSection(lines: seq<string>, st: Setting, f: nat, e: nat) {
    && f < e <= |lines| && OpensTarget(lines[f], st)
    && (forall i :: 0 <= i < f ==> !OpensTarget(lines[i], st))
    && (forall i :: f < i < e ==> !IsHeader(lines[i])) && (e < |lines| ==> IsHeader(lines[e]))
  }

  /** The first matching section holds the key. */
  predicate HoldsKey(lines: seq<string>, st: Setting, f: nat, e: nat) {
    exists i :: f < i < e && i < |lines| && KeyOf(st.lower, lines[i]) == st.lower(st.key)
  }

  /** The rewritten lines; and when the first matching section lacks the key, the new line at its end. */
  function Placed(lines: seq<string>, st: Setting, f: nat, e: nat): seq<string>
    requires e <= |lines|
  {
    RewrittenAt(lines, st);
    var rewritten := Rewritten(lines, st);
    if HoldsKey(lines, st, f, e) then rewritten
    else rewritten[..e] + [st.key + "=" + st.value] + rewritten[e..]
  }

  /** How far a run has come: before the first matching section, inside it without the key, or past its line. */
  ghost predicate Reached(lines: seq<string>, st: Setting, s: State, f: nat, e: nat) {
    if !s.saw then
      && !s.inside && !s.inserted && s.output == lines && Rewritten(lines, st) == lines
      && forall i :: 0 <= i < |lines| ==> !OpensTarget(lines[i], st)
    else if !s.inserted then
      && s.inside && s.output == lines && Rewritten(lines, st) == lines
      && FirstSection(lines, st, f, |lines|) && !HoldsKey(lines, st, f, |lines|)
    else
      && FirstSection(lines, st, f, e) && s.output == Placed(lines, st, f, e)
      && (e == |lines| ==> HoldsKey(lines, st, f, e))
  }

  lemma RewrittenSnoc(lines: seq<string>, line: string, st: Setting)
    ensures Rewritten(lines + [line], st) ==
            Rewritten(lines, st) + [if IsTargetLine(lines, line, st) then Rendered(st) else line]
  {
    assert (lines + [line])[..|lines|] == lines;
  }

  lemma HoldsKeySnoc(lines: seq<string>, line: string, st: Setting, f: nat, e: nat)
    requires f < e <= |lines|
    ensures HoldsKey(lines + [line], st, f, e) <==> HoldsKey(lines, st, f, e)
    ensures HoldsKey(lines + [line], st, f, |lines| + 1) <==>
            HoldsKey(lines, st, f, |lines|) || KeyOf(st.lower, line) == TargetKey(st)
  {
    hide KeyOf;
    var more := lines + [line];
    assert more[|lines|] == line && forall i :: 0 <= i < |lines| ==> more[i] == lines[i];
    if HoldsKey(lines, st, f, |lines|) {
      var i :| f < i < |lines| && KeyOf(st.lower, lines[i]) == st.lower(st.key);
      assert KeyOf(st.lower, more[i]) == st.lower(st.key);
    }
    if HoldsKey(lines, st, f, e) {
      var i :| f < i < e && i < |lines| && KeyOf(st.lower, lines[i]) == st.lower(st.key);
      assert KeyOf(st.lower, more[i]) == st.lower(st.key);
    }
  }

  lemma FirstSectionSnoc(lines: seq<string>, line: string, st: Setting, f: nat, e: nat)
    requires FirstSection(lines, st, f, e)
    ensures e < |lines| || IsHeader(line) ==> FirstSection(lines + [line], st, f, e)
    ensures e == |lines| && !IsHeader(line) ==> FirstSection(lines + [line], st, f, e + 1)
  {
    hide IsHeader, OpensTarget;
    var more := lines + [line];
    assert more[|lines|] == line && forall i :: 0 <= i < |lines| ==> more[i] == lines[i];
  }

  /** Past its first line an upsert goes on rewriting. */
  lemma PlacedSnoc(lines: seq<string>, line: string, st: Setting, f: nat, e: nat)
    requires FirstSection(lines, st, f, e) && (e == |lines| ==> HoldsKey(lines, st, f, e))
    ensures var end := if e == |lines| && !IsHeader(line) then e + 1 else e;
            && Placed(lines + [line], st, f, end) ==
               Placed(lines, st, f, e) + [if IsTargetLine(lines, line, st) then Rendered(st) else line]
            && (end == |lines| + 1 ==> HoldsKey(lines + [line], st, f, end))
  {
    hide IsHeader, OpensTarget, HoldsKey, IsTargetLine, Rewritten;
    HoldsKeySnoc(lines, line, st, f, e);
    RewrittenSnoc(lines, line, st);
    RewrittenAt(lines, st);
    var was, next := Rewritten(lines, st), Rewritten(lines + [line], st);
    assert next[..e] == was[..e];
    if e < |lines| {
      assert next[e..] == was[e..] + [if IsTargetLine(lines, line, st) then Rendered(st) else line];
    }
  }

  lemma ReachedSnoc(lines: seq<string>, line: string, st: Setting, s: State, f: nat, e: nat)
    returns (f': nat, e': nat)
    requires Reached(lines, st, s, f, e) && (s.inside <==> Current(lines, st.lower) == [Target(st)])
    ensures Reached(lines + [line], st, Step(s, line, st), f', e')
  {
    hide IsHeader, KeyOf, Current, Strip, FirstSection, HoldsKey, Rewritten, Placed;
    f', e' := f, e;
    RewrittenSnoc(lines, line, st);
    var more := lines + [line];
    if !s.saw {
      if OpensTarget(line, st) {
        f', e' := |lines|, |more|;
        StartsFirst(lines, line, st);
      }
    } else if !s.inserted {
      FirstSectionSnoc(lines, line, st, f, |lines|);
      FirstIsEarlier(lines, st, f, |lines|);
      HoldsKeySnoc(lines, line, st, f, |lines|);
      if IsHeader(line) {
        e' := |lines|;
        EndsFirst(lines, line, st, f);
      } else {
        e' := |more|;
        if KeyOf(st.lower, line) == TargetKey(st) {
          KeyInFirst(more, st, f);
        }
      }
    } else {
      FirstSectionSnoc(lines, line, st, f, e);
      PlacedSnoc(lines, line, st, f, e);
      FirstIsEarlier(lines, st, f, e);
      e' := if e == |lines| && !IsHeader(line) then e + 1 else e;
    }
  }

  lemma FirstIsEarlier(lines: seq<string>, st: Setting, f: nat, e: nat)
    requires FirstSection(lines, st, f, e)
    ensures f < e <= |lines|
  {
  }

  lemma StartsFirst(lines: seq<string>, line: string, st: Setting)
    requires OpensTarget(line, st) && forall i :: 0 <= i < |lines| ==> !OpensTarget(lines[i], st)
    ensures FirstSection(lines + [line], st, |lines|, |lines| + 1)
    ensures !HoldsKey(lines + [line], st, |lines|, |lines| + 1)
  {
    hide OpensTarget, IsHeader, KeyOf;
  }

  /** At the header behind a first section without the key the new line goes in. */
  lemma EndsFirst(lines: seq<string>, line: string, st: Setting, f: nat)
    requires IsHeader(line) && Rewritten(lines, st) == lines && !HoldsKey(lines, st, f, |lines|) && f < |lines|
    ensures Placed(lines + [line], st, f, |lines|) == lines + [Rendered(st)] + [line]
  {
    hide IsHeader, HoldsKey;
    HoldsKeySnoc(lines, line, st, f, |lines|);
    RewrittenSnoc(lines, line, st);
    var next := Rewritten(lines + [line], st);
    assert next == lines + [line];
    assert next[..|lines|] == lines && next[|lines|..] == [line];
  }

  lemma KeyInFirst(lines: seq<string>, st: Setting, f: nat)
    requires HoldsKey(lines, st, f, |lines|)
    ensures Placed(lines, st, f, |lines|) == Rewritten(lines, st)
  {
    hide HoldsKey;
  }

  lemma {:induction false} RunReaches(lines: seq<string>, st: Setting) returns (f: nat, e: nat)
    ensures Reached(lines, st, Run(lines, st), f, e)
  {
    if lines == [] {
      f, e := 0, 0;
    } else {
      hide Reached, Step;
      var init := lines[..|lines| - 1];
      f, e := RunReaches(init, st);
      RunInside(init, st);
      f, e := ReachedSnoc(init, lines[|lines| - 1], st, Run(init, st), f, e);
      assert init + [lines[|lines| - 1]] == lines;
    }
  }

  /**
   Exactly what an upsert writes. Without a matching section a new one is added at the end, behind a blank line when
   the text does not end in one. Otherwise every line of the key in every matching section is rewritten in its place,
   and when the first such section lacks the key the new line is added at its end. No other line is touched.
   */
  lemma UpsertIs(lines: seq<string>, st: Setting) returns (f: nat, e: nat)
    ensures if exists i :: 0 <= i < |lines| && OpensTarget(lines[i], st) then
              FirstSection(lines, st, f, e) && UpsertLines(lines, st) == Placed(lines, st, f, e)
            else
              UpsertLines(lines, st) ==
              lines + (if lines != [] && lines[|lines| - 1] != "" then [""] else [])
              + ["[" + st.section + "]", st.key + "=" + st.value]
  {
    hide Run, OpensTarget, HoldsKey;
    f, e := RunReaches(lines, st);
    var s := Run(lines, st);
    if s.saw {
      if !s.inserted {
        e := |lines|;
        assert Placed(lines, st, f, e) == lines + [Rendered(st)];
      }
      assert OpensTarget(lines[f], st);
    }
  }

  // ---------------------------------------------------------------- what a remove drops

  /** The lines kept are those at some ascending places, and each line left out is one of the key in its section. */
  ghost predicate KeptAt(lines: seq<string>, st: Setting, kept: seq<string>, at: seq<nat>) {
    && |at| == |kept| && (forall r :: 0 <= r < |at| ==> at[r] < |lines| && kept[r] == lines[at[r]])
    && (forall q, r :: 0 <= q < r < |at| ==> at[q] < at[r])
    && (forall i: nat :: i < |lines| ==> (i !in at <==> IsTargetLine(lines[..i], lines[i], st)))
  }

  lemma KeptSnoc(lines: seq<string>, line: string, st: Setting, kept: seq<string>, at: seq<nat>)
    requires KeptAt(lines, st, kept, at)
    ensures if IsTargetLine(lines, line, st) then KeptAt(lines + [line], st, kept, at)
            else KeptAt(lines + [line], st, kept + [line], at + [|lines|])
  {
    hide IsTargetLine;
    var more, all := at + [|lines|], lines + [line];
    assert all[..|lines|] == lines && all[|lines|] == line;
    assert forall i: nat :: i < |lines| ==> all[..i] == lines[..i] && all[i] == lines[i];
    assert forall i: nat :: i < |lines| ==> (i in more <==> i in at);
    assert more[|at|] == |lines|;
  }

  lemma {:induction false} RemoveIs(lines: seq<string>, st: Setting) returns (at: seq<nat>)
    ensures KeptAt(lines, st, RemoveLines(lines, st), at)
  {
    if lines == [] {
      at := [];
    } else {
      hide KeptAt, IsTargetLine;
      var n := |lines| - 1;
      at := RemoveIs(lines[..n], st);
      KeptSnoc(lines[..n], lines[n], st, RemoveLines(lines[..n], st), at);
      assert lines == lines[..n] + [lines[n]];
      if !IsTargetLine(lines[..n], lines[n], st) {
        at := at + [n];
      }
    }
  }
}
