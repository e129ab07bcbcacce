/** The two line grammars of the find-results buffer: the path header `^([^#]\S+):` and the
    replacement entry `^\s+(\d+): (.*?)$`, written out as the regex engine runs them. */
module Grammar {
  import opened Options
  import opened Lines

  /** A replacement entry: the 1-based line number and the new content of that line. */
  datatype Entry = Entry(lineno: nat, content: string)

  /** The whitespace of `\s`, `\S` and `str.strip()` (the characters `str.isspace` accepts). */
  predicate IsSpace(c: char)
  {
    c == ' ' || '\t' <= c <= '\r' || '\U{1C}' <= c <= '\U{1F}' || c == '\U{85}' || c == '\U{A0}'
    || c == '\U{1680}' || '\U{2000}' <= c <= '\U{200A}' || c == '\U{2028}' || c == '\U{2029}'
    || c == '\U{202F}' || c == '\U{205F}' || c == '\U{3000}'
  }

  /** `\d`, restricted to ASCII digits. */
  predicate IsDigit(c: char)
  {
    '0' <= c <= '9'
  }

  /** `line.strip() == ""`. */
  predicate IsBlank(line: string)
  {
    forall k :: 0 <= k < |line| ==> IsSpace(line[k])
  }

  /** Where a greedy `\S+` that starts at `i` stops. */
  function NonSpaceEnd(s: string, i: nat): (r: nat)
    requires i <= |s|
    ensures i <= r <= |s|
    decreases |s| - i
  {
    if i == |s| || IsSpace(s[i]) then i else NonSpaceEnd(s, i + 1)
  }

  lemma {:induction false} NonSpaceEndExact(s: string, i: nat)
    requires i <= |s|
    ensures NonSpaceEnd(s, i) < |s| ==> IsSpace(s[NonSpaceEnd(s, i)])
    ensures forall k :: i <= k < NonSpaceEnd(s, i) ==> !IsSpace(s[k])
    decreases |s| - i
  {
    if i < |s| && !IsSpace(s[i]) {
      NonSpaceEndExact(s, i + 1);
    }
  }

  /** Where a greedy `\s+` that starts at `i` stops. */
  function SpaceEnd(s: string, i: nat): (r: nat)
    requires i <= |s|
    ensures i <= r <= |s|
    decreases |s| - i
  {
    if i == |s| || !IsSpace(s[i]) then i else SpaceEnd(s, i + 1)
  }

  lemma {:induction false} SpaceEndExact(s: string, i: nat)
    requires i <= |s|
    ensures SpaceEnd(s, i) < |s| ==> !IsSpace(s[SpaceEnd(s, i)])
    ensures forall k :: i <= k < SpaceEnd(s, i) ==> IsSpace(s[k])
    decreases |s| - i
  {
    if i < |s| && IsSpace(s[i]) {
      SpaceEndExact(s, i + 1);
    }
  }

  /** Where a greedy `\d+` that starts at `i` stops. */
  function DigitEnd(s: string, i: nat): (r: nat)
    requires i <= |s|
    ensures i <= r <= |s|
    decreases |s| - i
  {
    if i == |s| || !IsDigit(s[i]) then i else DigitEnd(s, i + 1)
  }

  lemma {:induction false} DigitEndExact(s: string, i: nat)
    requires i <= |s|
    ensures DigitEnd(s, i) < |s| ==> !IsDigit(s[DigitEnd(s, i)])
    ensures forall k :: i <= k < DigitEnd(s, i) ==> IsDigit(s[k])
    decreases |s| - i
  {
    if i < |s| && IsDigit(s[i]) {
      DigitEndExact(s, i + 1);
    }
  }

  /** The last colon in `s[lo..hi]`, or -1. */
  function LastColon(s: string, lo: nat, hi: nat): (r: int)
    requires hi <= |s|
    ensures r == -1 || lo <= r < hi
    decreases hi
  {
    if hi <= lo then -1
    else if s[hi - 1] == ':' then hi - 1
    else LastColon(s, lo, hi - 1)
  }

  lemma {:induction false} LastColonExact(s: string, lo: nat, hi: nat)
    requires hi <= |s|
    ensures LastColon(s, lo, hi) >= 0 ==> s[LastColon(s, lo, hi)] == ':'
    ensures forall j :: lo <= j < hi && s[j] == ':' ==> j <= LastColon(s, lo, hi)
    decreases hi
  {
    if hi > lo && s[hi - 1] != ':' {
      LastColonExact(s, lo, hi - 1);
    }
  }

  /** The header regex can match `line` with its closing colon at index `j`: a first
      character other than `#` (whitespace allowed), at least one non-whitespace character,
      then the colon. Nothing is required of what follows the colon. */
  ghost predicate HeaderColonAt(line: string, j: int)
  {
    2 <= j < |line| && line[0] != '#' && line[j] == ':'
    && forall k :: 1 <= k < j ==> !IsSpace(line[k])
  }

  /** `path_regex.match(line)` and its group 1. The greedy `\S+` backtracks from the end of
      the non-whitespace run, so the captured path ends at the last colon that run allows. */
  function MatchHeader(line: string): Option<string>
  {
    if |line| < 3 || line[0] == '#' then None
    else
      var j := LastColon(line, 2, NonSpaceEnd(line, 1));
      if j < 0 then None else Some(line[..j])
  }

  /** The header regex matches exactly when some colon can close it, and the captured path
      runs up to the LAST such colon. */
  lemma MatchHeaderExact(line: string)
    ensures MatchHeader(line).Some? <==> exists j :: HeaderColonAt(line, j)
    ensures MatchHeader(line).Some? ==>
      (HeaderColonAt(line, |MatchHeader(line).value|)
       && MatchHeader(line).value == line[..|MatchHeader(line).value|]
       && forall j :: HeaderColonAt(line, j) ==> j <= |MatchHeader(line).value|)
  {
    if |line| >= 3 && line[0] != '#' {
      var e := NonSpaceEnd(line, 1);
      var j := LastColon(line, 2, e);
      NonSpaceEndExact(line, 1);
      LastColonExact(line, 2, e);
      HeaderColonBeforeSpace(line, e);
      if j >= 0 {
        assert HeaderColonAt(line, j);
      }
    }
  }

  /** Every colon the header regex can close on lies inside the non-whitespace run. */
  lemma HeaderColonBeforeSpace(line: string, e: nat)
    requires 1 <= e <= |line| && (e < |line| ==> IsSpace(line[e]))
    requires forall k :: 1 <= k < e ==> !IsSpace(line[k])
    ensures forall j :: HeaderColonAt(line, j) ==> j < e
  {
  }

  /** The entry regex can match `line` up to its `": "` with the line number at `line[w..d]`. */
  ghost predicate EntryShape(line: string, w: int, d: int)
  {
    1 <= w < d && d + 2 <= |line|
    && (forall k :: 0 <= k < w ==> IsSpace(line[k]))
    && (forall k :: w <= k < d ==> IsDigit(line[k]))
    && line[d] == ':' && line[d + 1] == ' '
  }

  /** `(.*?)$` on what follows `": "`: `.` stops at a newline, and `$` matches at the end or
      just before a newline that ends the string. */
  function LazyToEnd(rest: string): Option<string>
  {
    var nl := FindNewline(rest, 0);
    if nl < 0 then Some(rest)
    else if nl == |rest| - 1 then Some(rest[..nl])
    else None
  }

  /** The lazy group with `$` succeeds exactly when no newline comes before the last
      character, and captures the rest without its final newline. */
  lemma LazyToEndExact(rest: string)
    ensures LazyToEnd(rest).Some? <==> forall k :: 0 <= k < |rest| - 1 ==> rest[k] != '\n'
    ensures LazyToEnd(rest).Some? ==>
      (LazyToEnd(rest).value == rest && '\n' !in rest) || LazyToEnd(rest).value + "\n" == rest
  {
    FindNewlineFirst(rest, 0);
  }

  lemma LazyToEndWithoutNewline(rest: string)
    requires '\n' !in rest
    ensures LazyToEnd(rest) == Some(rest)
  {
    assert FindNewline(rest, 0) == -1;
  }

  /** `int()` of a run of decimal digits. */
  function DigitsValue(s: string): nat
  {
    if s == [] then 0
    else DigitsValue(s[..|s| - 1]) * 10 + DigitValue(s[|s| - 1])
  }

  /** The value of a decimal digit (only ever applied to digits). */
  function DigitValue(c: char): nat
  {
    if IsDigit(c) then c as int - '0' as int else 0
  }

  /** `repl_regex.match(line)`, as the entry `(int(group(1)), group(2))`. */
  function MatchEntry(line: string): Option<Entry>
  {
    var w := SpaceEnd(line, 0);
    var d := DigitEnd(line, w);
    if 1 <= w < d && d + 2 <= |line| && line[d] == ':' && line[d + 1] == ' ' then
      match LazyToEnd(line[d + 2..])
      case Some(c) => Some(Entry(DigitsValue(line[w..d]), c))
      case None => None
    else None
  }

  /** The entry regex matches only lines of the entry shape; on such a line the shape is
      unique and the match succeeds exactly when the rest is one line, with the number's
      value and the rest as content. */
  lemma MatchEntryExact(line: string)
    ensures MatchEntry(line).Some? ==> exists w, d :: EntryShape(line, w, d)
    ensures forall w, d :: EntryShape(line, w, d) ==>
      MatchEntry(line) == match LazyToEnd(line[d + 2..])
           case Some(c) => Some(Entry(DigitsValue(line[w..d]), c))
           case None => None
  {
    var w := SpaceEnd(line, 0);
    var d := DigitEnd(line, w);
    SpaceEndExact(line, 0);
    DigitEndExact(line, w);
    EntryShapeForced(line);
    if 1 <= w < d && d + 2 <= |line| && line[d] == ':' && line[d + 1] == ' ' {
      assert EntryShape(line, w, d);
    }
  }

  /** The regex leaves no choice: the whitespace and the digits are both maximal runs. */
  lemma EntryShapeForced(line: string)
    ensures forall w, d :: EntryShape(line, w, d) ==>
      w == SpaceEnd(line, 0) && d == DigitEnd(line, SpaceEnd(line, 0))
  {
    SpaceEndExact(line, 0);
    DigitEndExact(line, SpaceEnd(line, 0));
    forall w, d | EntryShape(line, w, d)
      ensures w == SpaceEnd(line, 0) && d == DigitEnd(line, SpaceEnd(line, 0))
    {
      assert IsDigit(line[w]);
    }
  }

  /** The test `mark_replaced` applies to a line: either grammar matches. */
  predicate Matches(line: string)
  {
    MatchHeader(line).Some? || MatchEntry(line).Some?
  }

  /** How `replace_all` reads one line: blank lines are skipped, and the header test runs
      before the entry test. */
  datatype Kind = HeaderLine(path: string) | EntryLine(entry: Entry) | OtherLine

  function Classify(line: string): Kind
  {
    if IsBlank(line) then OtherLine
    else match MatchHeader(line)
      case Some(p) => HeaderLine(p)
      case None =>
        match MatchEntry(line)
        case Some(e) => EntryLine(e)
        case None => OtherLine
  }

  /** A `#` at the start of a line defeats both grammars: the header's first character may
      not be `#`, and an entry must start with whitespace. */
  lemma MarkedLineMatchesNeither(line: string)
    requires |line| > 0 && line[0] == '#'
    ensures MatchHeader(line).None? && MatchEntry(line).None? && Classify(line) == OtherLine
  {
  }

  /** A blank line matches neither grammar, so the `strip()` test of `replace_all` only
      saves work. */
  lemma BlankMatchesNeither(line: string)
    requires IsBlank(line)
    ensures !Matches(line)
  {
  }

  /** Every line classified as a header matches the header grammar and every entry line
      matches the entry grammar; a captured path is never empty. */
  lemma ClassifySound(line: string)
    ensures Classify(line).HeaderLine? ==>
      MatchHeader(line) == Some(Classify(line).path) && |Classify(line).path| >= 2
    ensures Classify(line).EntryLine? ==>
      MatchHeader(line).None? && MatchEntry(line) == Some(Classify(line).entry)
    ensures Classify(line).OtherLine? ==> !Matches(line)
  {
    if IsBlank(line) {
      BlankMatchesNeither(line);
    }
  }

  /** A line with exactly one leading space, digits and `": "` matches both grammars, and
      since the header test runs first it is read as a header whose path is the space and
      the digits. */
  lemma OneSpaceEntryIsHeader(digits: string, content: string)
    requires |digits| > 0 && forall k :: 0 <= k < |digits| ==> IsDigit(digits[k])
    requires '\n' !in content
    ensures MatchEntry(" " + digits + ": " + content) == Some(Entry(DigitsValue(digits), content))
    ensures Classify(" " + digits + ": " + content) == HeaderLine(" " + digits)
  {
    var line := " " + digits + ": " + content;
    var d := |digits| + 1;
    assert line[0] == ' ' && line[d] == ':' && line[d + 1] == ' ';
    assert forall k :: 1 <= k < d ==> line[k] == digits[k - 1];
    assert line[1..d] == digits && line[d + 2..] == content && line[..d] == " " + digits;
    OneSpaceEntry(line, d);
    OneSpaceHeader(line, d);
  }

  lemma OneSpaceEntry(line: string, d: nat)
    requires 2 <= d && d + 2 <= |line| && line[0] == ' ' && line[d] == ':' && line[d + 1] == ' '
    requires forall k :: 1 <= k < d ==> IsDigit(line[k])
    requires '\n' !in line[d + 2..]
    ensures MatchEntry(line) == Some(Entry(DigitsValue(line[1..d]), line[d + 2..]))
  {
    assert EntryShape(line, 1, d);
    MatchEntryExact(line);
    LazyToEndWithoutNewline(line[d + 2..]);
  }

  lemma OneSpaceHeader(line: string, d: nat)
    requires 2 <= d && d + 2 <= |line| && line[0] == ' ' && line[d] == ':' && line[d + 1] == ' '
    requires forall k :: 1 <= k < d ==> IsDigit(line[k])
    ensures Classify(line) == HeaderLine(line[..d])
  {
    assert HeaderColonAt(line, d);
    assert !IsSpace(line[1]);
    MatchHeaderExact(line);
  }
}
