/** The line scanner: `get_lines` and the `str.find('\n', from)` it is built on. */
module Lines {
  import opened Seqs

  /** One yielded line: its text (without the newline) and its offset in the scanned text. */
  datatype Line = Line(text: string, start: nat)

  /** `s.find('\n', from)`: the first newline at or after `from`, or -1. */
  function FindNewline(s: string, from: nat): (r: int)
    ensures r == -1 || (from <= r < |s| && s[r] == '\n')
    decreases |s| - from
  {
    if from >= |s| then -1
    else if s[from] == '\n' then from
    else FindNewline(s, from + 1)
  }

  /** No newline lies between `from` and the one found, or after `from` when none is. */
  lemma {:induction false} FindNewlineFirst(s: string, from: nat)
    ensures FindNewline(s, from) == -1 ==> forall j :: from <= j < |s| ==> s[j] != '\n'
    ensures FindNewline(s, from) >= 0 ==> forall j :: from <= j < FindNewline(s, from) ==> s[j] != '\n'
    decreases |s| - from
  {
    if from < |s| && s[from] != '\n' {
      FindNewlineFirst(s, from + 1);
    }
  }

  /** A search that starts no later than one that succeeds succeeds, no later. */
  lemma {:induction false} FindNewlineReaches(s: string, from: nat, to: nat)
    requires from <= to && FindNewline(s, to) >= 0
    ensures from <= FindNewline(s, from) <= FindNewline(s, to)
    decreases (to as int) - from
  {
    if from < to && s[from] != '\n' {
      FindNewlineReaches(s, from + 1, to);
    }
  }

  /** The lines the scanner yields when it starts at `from`: every newline-terminated line,
      and never the unterminated fragment after the last newline. */
  function LinesFrom(s: string, from: nat): seq<Line>
    decreases |s| - from
  {
    var nl := FindNewline(s, from);
    if nl < 0 then []
    else [Line(s[from..nl], from)] + LinesFrom(s, nl + 1)
  }

  /** Every yielded line is the text between its start and the next newline, holds no
      newline itself, starts at `from` or one past the previous line's newline. */
  ghost predicate WellSplit(s: string, from: nat, ls: seq<Line>)
  {
    (forall i :: 0 <= i < |ls| ==> from <= ls[i].start)
    && (forall i :: 0 <= i < |ls| ==> Cut(s, ls[i]))
    && (|ls| > 0 ==> ls[0].start == from)
    && (forall i, j :: 0 <= i && j == i + 1 && j < |ls| ==> ls[j].start == ls[i].start + |ls[i].text| + 1)
  }

  /** The line is the text from its start up to a newline, and holds no newline itself. */
  ghost predicate Cut(s: string, l: Line)
  {
    l.start + |l.text| < |s| && s[l.start + |l.text|] == '\n'
    && l.text == s[l.start .. l.start + |l.text|] && '\n' !in l.text
  }

  /** A search from the start of a newline-terminated line finds that line's newline. */
  lemma CutFindsNewline(s: string, l: Line)
    requires Cut(s, l)
    ensures FindNewline(s, l.start) == l.start + |l.text|
  {
    FindNewlineFirst(s, l.start);
    assert s[l.start + |l.text|] == '\n';
    assert forall j :: l.start <= j < l.start + |l.text| ==> s[j] == l.text[j - l.start];
  }

  /** The scanner yields exactly the lines described by `WellSplit`. */
  lemma LinesFromWellSplit(s: string, from: nat)
    ensures WellSplit(s, from, LinesFrom(s, from))
  {
    LinesFromCut(s, from);
    LinesFromAdjacent(s, from);
  }

  lemma {:induction false} LinesFromCut(s: string, from: nat)
    ensures forall i :: 0 <= i < |LinesFrom(s, from)| ==>
      from <= LinesFrom(s, from)[i].start && Cut(s, LinesFrom(s, from)[i])
    decreases |s| - from
  {
    var nl := FindNewline(s, from);
    if nl >= 0 {
      LinesFromCut(s, nl + 1);
      var rest := LinesFrom(s, nl + 1);
      var ls := [Line(s[from..nl], from)] + rest;
      LinesFromStep(s, from);
      FindNewlineFirst(s, from);
      assert Cut(s, ls[0]);
      assert forall i :: 1 <= i < |ls| ==> ls[i] == rest[i - 1];
    }
  }

  lemma {:induction false} LinesFromAdjacent(s: string, from: nat)
    ensures |LinesFrom(s, from)| > 0 ==> LinesFrom(s, from)[0].start == from
    ensures forall i, j :: 0 <= i && j == i + 1 && j < |LinesFrom(s, from)| ==>
      LinesFrom(s, from)[j].start == LinesFrom(s, from)[i].start + |LinesFrom(s, from)[i].text| + 1
    decreases |s| - from
  {
    var nl := FindNewline(s, from);
    if nl >= 0 {
      LinesFromAdjacent(s, nl + 1);
      var rest := LinesFrom(s, nl + 1);
      var ls := [Line(s[from..nl], from)] + rest;
      LinesFromStep(s, from);
      assert forall i :: 1 <= i < |ls| ==> ls[i] == rest[i - 1];
    }
  }

  /** A search from the start of any scanned line finds that line's newline. */
  lemma LineEndsAtNewline(s: string, i: nat)
    requires i < |LinesFrom(s, 0)|
    ensures FindNewline(s, LinesFrom(s, 0)[i].start) >= 0
  {
    LinesFromWellSplit(s, 0);
    CutFindsNewline(s, LinesFrom(s, 0)[i]);
  }

  /** `get_lines(text)`: a generator loop advancing `prev_pos` from newline to newline. */
  method GetLines(text: string) returns (lines: seq<Line>)
    ensures lines == LinesFrom(text, 0)
  {
    var prevPos := -1;
    lines := [];
    while true
      invariant -1 <= prevPos < |text|
      invariant LinesFrom(text, 0) == lines + LinesFrom(text, prevPos + 1)
      decreases |text| - prevPos
    {
      var pos := FindNewline(text, prevPos + 1);
      if pos < 0 {
        break;
      }
      lines := lines + [Line(text[prevPos + 1..pos], prevPos + 1)];
      prevPos := pos;
    }
  }

  /** The texts of a run of lines. */
  function Texts(ls: seq<Line>): (ts: seq<string>)
    ensures |ts| == |ls| && forall i :: 0 <= i < |ls| ==> ts[i] == ls[i].text
  {
    if ls == [] then [] else [ls[0].text] + Texts(ls[1..])
  }

  /** Writes each text followed by a newline, as `f.write(t + "\n")` does. */
  function Join(ts: seq<string>): string
  {
    if ts == [] then "" else ts[0] + "\n" + Join(ts[1..])
  }

  lemma JoinCons(t: string, ts: seq<string>)
    ensures Join([t] + ts) == t + "\n" + Join(ts)
  {
    assert ([t] + ts)[1..] == ts;
  }

  lemma TextsCons(l: Line, ls: seq<Line>)
    ensures Texts([l] + ls) == [l.text] + Texts(ls)
  {
    assert ([l] + ls)[1..] == ls;
  }

  lemma JoinOne(t: string)
    ensures Join([t]) == t + "\n"
  {
    assert [t][1..] == [];
  }

  lemma {:induction false} JoinAppend(a: seq<string>, b: seq<string>)
    ensures Join(a + b) == Join(a) + Join(b)
    decreases |a|
  {
    if a != [] {
      assert (a + b)[1..] == a[1..] + b;
      JoinAppend(a[1..], b);
    } else {
      assert a + b == b;
    }
  }

  /** The text of the yielded lines, each followed by its newline. */
  function Joined(s: string, from: nat): string
  {
    Join(Texts(LinesFrom(s, from)))
  }

  /** Joining the yielded lines gives back the scanned text up to and including its last
      newline. */
  lemma {:induction false} LinesTileText(s: string, from: nat)
    requires from <= |s|
    ensures from + |Joined(s, from)| <= |s|
    ensures s[from..from + |Joined(s, from)|] == Joined(s, from)
    decreases |s| - from
  {
    var nl := FindNewline(s, from);
    if nl >= 0 {
      JoinedStep(s, from);
      LinesTileText(s, nl + 1);
      SliceAround(s, from, nl, Joined(s, nl + 1), Joined(s, from));
    }
  }

  /** What follows the joined lines holds no newline: the scanner drops only an
      unterminated last fragment. */
  lemma {:induction false} NothingAfterLastLine(s: string, from: nat)
    requires from <= |s|
    ensures forall j :: from + |Joined(s, from)| <= j < |s| ==> s[j] != '\n'
    decreases |s| - from
  {
    var nl := FindNewline(s, from);
    FindNewlineFirst(s, from);
    if nl >= 0 {
      JoinedStep(s, from);
      NothingAfterLastLine(s, nl + 1);
    }
  }

  /** The joined lines from `from` are the first line, its newline, then the joined lines
      after it. */
  lemma JoinedStep(s: string, from: nat)
    requires FindNewline(s, from) >= 0
    ensures Joined(s, from)
         == s[from..FindNewline(s, from)] + [s[FindNewline(s, from)]] + Joined(s, FindNewline(s, from) + 1)
  {
    var nl := FindNewline(s, from);
    LinesFromStep(s, from);
    TextsCons(Line(s[from..nl], from), LinesFrom(s, nl + 1));
    JoinCons(s[from..nl], Texts(LinesFrom(s, nl + 1)));
  }

  /** The number of newlines in `s` at or after index `from`. */
  function NewlinesFrom(s: string, from: nat): nat
    decreases |s| - from
  {
    if from >= |s| then 0 else (if s[from] == '\n' then 1 else 0) + NewlinesFrom(s, from + 1)
  }

  /** The scanner yields exactly one line per newline of the scanned text. */
  lemma {:induction false} OneLinePerNewline(s: string, from: nat)
    ensures |LinesFrom(s, from)| == NewlinesFrom(s, from)
    decreases |s| - from
  {
    var nl := FindNewline(s, from);
    FindNewlineFirst(s, from);
    if nl < 0 && from < |s| {
      SkipNonNewlines(s, from, |s|);
    } else if nl >= 0 {
      SkipNonNewlines(s, from, nl);
      OneLinePerNewline(s, nl + 1);
    }
  }

  lemma {:induction false} SkipNonNewlines(s: string, from: nat, to: nat)
    requires from <= to <= |s|
    requires forall j :: from <= j < to ==> s[j] != '\n'
    ensures NewlinesFrom(s, from) == NewlinesFrom(s, to)
    decreases |s| - from
  {
    if from < to {
      SkipNonNewlines(s, from + 1, to);
    }
  }

  /** One step of the scanner from `from`, when a newline follows. */
  lemma LinesFromStep(s: string, from: nat)
    requires FindNewline(s, from) >= 0
    ensures LinesFrom(s, from)
         == [Line(s[from..FindNewline(s, from)], from)] + LinesFrom(s, FindNewline(s, from) + 1)
  {
  }
}
