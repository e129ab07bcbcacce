/** The read-only scans over the buffer that locate a block: `find_last_file`,
    `find_file_end` and `find_next_repl`. The buffer is a string; `view.line(p)` is the pair
    `LineStart(v, p)`, `LineEnd(v, p)`. */
module Navigation {
  import opened Options
  import opened Lines
  import opened Grammar

  /** A position where a line of the buffer starts: the beginning, or just after a newline. */
  predicate IsLineStart(v: string, a: int)
  {
    a == 0 || (0 < a <= |v| && v[a - 1] == '\n')
  }

  /** `view.line(p).a`: the start of the line holding position `p`. */
  function LineStart(v: string, p: nat): (a: nat)
    requires p <= |v|
    ensures a <= p && IsLineStart(v, a)
    ensures forall c :: a < c <= p ==> !IsLineStart(v, c)
    decreases p
  {
    if p == 0 || v[p - 1] == '\n' then p else LineStart(v, p - 1)
  }

  /** `view.line(p).b`: the end of the line holding position `p`, at its newline or at the
      end of the buffer. */
  function LineEnd(v: string, p: nat): (b: nat)
    requires p <= |v|
    ensures p <= b <= |v| && (b < |v| ==> v[b] == '\n')
    ensures forall c :: p <= c < b ==> v[c] != '\n'
  {
    FindNewlineFirst(v, p);
    var nl := FindNewline(v, p);
    if nl < 0 then |v| else nl
  }

  /** `view.substr(view.line(a))` for the line that starts at `a`. */
  function LineText(v: string, a: nat): string
    requires a <= |v|
  {
    v[a..LineEnd(v, a)]
  }

  /** A line start is its own line's start. */
  lemma LineStartOfStart(v: string, a: nat)
    requires a <= |v| && IsLineStart(v, a)
    ensures LineStart(v, a) == a
  {
  }

  /** The line holding `p` ends where the line from its start ends, so its text is
      `LineText` of its start; no line starts strictly inside it. */
  lemma LineEndCovers(v: string, p: nat)
    requires p <= |v|
    ensures LineEnd(v, LineStart(v, p)) == LineEnd(v, p)
    ensures forall c :: LineStart(v, p) < c <= LineEnd(v, p) ==> !IsLineStart(v, c)
  {
    var a := LineStart(v, p);
    var b1 := LineEnd(v, a);
    var b2 := LineEnd(v, p);
    assert forall c :: a <= c < p ==> v[c] != '\n' by {
      forall c | a <= c < p ensures v[c] != '\n' {
        assert !IsLineStart(v, c + 1);
      }
    }
  }

  /** A line that stops the backward search: a `#` followed by a header, i.e. a header
      that has already been applied and marked. */
  predicate MarkedHeader(line: string)
  {
    |line| > 0 && line[0] == '#' && MatchHeader(line[1..]).Some?
  }

  /** No line starting after `b` and at or before `pos` is a header or a marked header. */
  ghost predicate NoHeaderAfter(v: string, b: int, pos: nat)
    requires pos <= |v|
  {
    forall c :: b < c <= pos && IsLineStart(v, c) ==>
      MatchHeader(LineText(v, c)).None? && !MarkedHeader(LineText(v, c))
  }

  /** `find_last_file(pos)`: walk back line by line from the line holding `pos` and return
      the path and line start of the first header; give up at a marked header, at the top
      of the buffer, or at once when `pos` is 0. */
  method FindLastFile(v: string, pos: nat) returns (r: Option<(string, nat)>)
    requires pos <= |v|
    ensures r.Some? ==>
      0 < pos && r.value.1 <= pos && IsLineStart(v, r.value.1)
      && MatchHeader(LineText(v, r.value.1)) == Some(r.value.0)
      && NoHeaderAfter(v, r.value.1, pos)
    ensures r.None? ==>
      pos == 0
      || NoHeaderAfter(v, -1, pos)
      || exists b :: 0 <= b <= pos && IsLineStart(v, b) && MarkedHeader(LineText(v, b))
                     && NoHeaderAfter(v, b, pos)
  {
    var p: int := pos;
    while p > 0
      invariant p <= pos
      invariant p < pos ==> IsLineStart(v, p + 1)
      invariant p >= 0 ==> NoHeaderAfter(v, LineStart(v, p), pos)
      invariant p < 0 ==> NoHeaderAfter(v, -1, pos)
      decreases p
    {
      var a := LineStart(v, p);
      var b := LineEnd(v, p);
      LineEndCovers(v, p);
      var line := v[a..b];
      var res := MatchHeader(line);
      if res.Some? {
        return Some((res.value, a));
      }
      if |line| > 0 && line[0] == '#' && MatchHeader(line[1..]).Some? {
        assert MarkedHeader(LineText(v, a));
        return None;
      }
      p := (a as int) - 1;
      if p >= 0 {
        LineStartStep(v, a, pos);
      }
    }
    if p == 0 && 0 < pos {
      assert v[0] == '\n';
      assert LineText(v, 0) == "";
    }
    r := None;
  }

  /** Having cleared the line at `a` and those after it, the search has cleared every line
      after the start of the line before. */
  lemma LineStartStep(v: string, a: nat, pos: nat)
    requires 0 < a <= pos <= |v| && IsLineStart(v, a)
    requires MatchHeader(LineText(v, a)).None? && !MarkedHeader(LineText(v, a))
    requires NoHeaderAfter(v, a, pos)
    ensures NoHeaderAfter(v, LineStart(v, a - 1), pos)
  {
  }

  /** No line starting in `lo..hi` (and inside the buffer) is blank. */
  ghost predicate NoBlankIn(v: string, lo: int, hi: int)
  {
    forall c :: lo <= c < hi && c < |v| && IsLineStart(v, c) ==> !IsBlank(LineText(v, c))
  }

  /** `find_file_end(pos)`: walk forward from the line holding `pos` and return the start
      of the first blank line, or the size of the buffer less one when there is none. */
  method FindFileEnd(v: string, pos: nat) returns (r: int)
    ensures pos < |v| ==>
      (IsLineStart(v, r) && LineStart(v, pos) <= r < |v| && IsBlank(LineText(v, r))
       && NoBlankIn(v, LineStart(v, pos), r))
      || (r == |v| - 1 && NoBlankIn(v, LineStart(v, pos), |v|))
    ensures pos >= |v| ==> r == |v| - 1
  {
    var p: nat := pos;
    ghost var lo := if pos < |v| then LineStart(v, pos) else pos;
    while p < |v|
      invariant pos < |v| ==> LineStart(v, pos) <= lo && NoBlankIn(v, LineStart(v, pos), lo)
      invariant p < |v| ==> lo == LineStart(v, p)
      invariant p >= |v| ==> lo >= |v|
      decreases |v| - lo
    {
      var a := LineStart(v, p);
      var b := LineEnd(v, p);
      LineEndCovers(v, p);
      var line := v[a..b];
      if IsBlank(line) {
        return a;
      }
      ForwardStep(v, a, b);
      if pos < |v| {
        NoBlankStep(v, LineStart(v, pos), a, b);
      }
      p := b + 1;
      lo := b + 1;
    }
    return |v| - 1;
  }

  /** After the line from `a` to `b`, the next line to look at starts at `b + 1`, and no line
      starts between. */
  lemma ForwardStep(v: string, a: nat, b: nat)
    requires a <= b <= |v| && b == LineEnd(v, a)
    ensures b + 1 < |v| + 1 ==> LineStart(v, b + 1) == b + 1
    ensures forall c :: a < c <= b ==> !IsLineStart(v, c)
  {
    if b < |v| {
      assert IsLineStart(v, b + 1);
    }
  }

  /** A line from `a` to `b` that is not blank extends the run of lines without one. */
  lemma NoBlankStep(v: string, s0: nat, a: nat, b: nat)
    requires s0 <= a <= b <= |v| && b == LineEnd(v, a) && NoBlankIn(v, s0, a)
    requires !IsBlank(LineText(v, a))
    requires forall c :: a < c <= b ==> !IsLineStart(v, c)
    ensures NoBlankIn(v, s0, b + 1)
  {
  }

  /** No line starting in `lo..hi` (and inside the buffer) is a replacement entry. */
  ghost predicate NoEntryIn(v: string, lo: int, hi: int)
  {
    forall c :: lo <= c < hi && c < |v| && IsLineStart(v, c) ==> MatchEntry(LineText(v, c)).None?
  }

  /** `find_next_repl(pos)`: walk forward from the line holding `pos` to the first entry
      line; return `pos` itself when that is the line holding `pos`, the entry line's start
      otherwise, and the size of the buffer less one when there is none. */
  method FindNextRepl(v: string, pos: nat) returns (r: int)
    ensures pos < |v| ==>
      (r == pos && MatchEntry(LineText(v, LineStart(v, pos))).Some?)
      || (IsLineStart(v, r) && pos < r < |v| && MatchEntry(LineText(v, r)).Some?
          && NoEntryIn(v, LineStart(v, pos), r))
      || (r == |v| - 1 && NoEntryIn(v, LineStart(v, pos), |v|))
    ensures pos >= |v| ==> r == |v| - 1
  {
    var p: nat := pos;
    ghost var lo := if pos < |v| then LineStart(v, pos) else pos;
    while p < |v|
      invariant pos < |v| ==> LineStart(v, pos) <= lo && NoEntryIn(v, LineStart(v, pos), lo)
      invariant pos < |v| && p != pos ==> pos < p
      invariant p < |v| && p != pos ==> IsLineStart(v, p)
      invariant p < |v| ==> lo == LineStart(v, p)
      invariant p >= |v| ==> lo >= |v|
      decreases |v| - lo
    {
      var a := LineStart(v, p);
      var b := LineEnd(v, p);
      LineEndCovers(v, p);
      var line := v[a..b];
      if MatchEntry(line).Some? {
        r := p;
        NextEntryHere(v, pos, p, lo);
        return;
      }
      ForwardStep(v, a, b);
      if pos < |v| {
        NoEntryStep(v, LineStart(v, pos), a, b);
      }
      p := b + 1;
      lo := b + 1;
    }
    return |v| - 1;
  }

  /** The line holding `p` is an entry and no line before it since the line holding `pos`
      is: `find_next_repl` returns `p`. */
  lemma NextEntryHere(v: string, pos: nat, p: nat, lo: nat)
    requires pos <= p < |v| && (p != pos ==> IsLineStart(v, p)) && lo == LineStart(v, p)
    requires LineStart(v, pos) <= lo && NoEntryIn(v, LineStart(v, pos), lo)
    requires MatchEntry(LineText(v, lo)).Some?
    ensures (p == pos && MatchEntry(LineText(v, LineStart(v, pos))).Some?)
      || (IsLineStart(v, p) && pos < p < |v| && MatchEntry(LineText(v, p)).Some?
          && NoEntryIn(v, LineStart(v, pos), p))
  {
    if p != pos {
      LineStartOfStart(v, p);
    }
  }

  /** A line from `a` to `b` that is not an entry extends the run of lines without one. */
  lemma NoEntryStep(v: string, s0: nat, a: nat, b: nat)
    requires s0 <= a <= b <= |v| && b == LineEnd(v, a) && NoEntryIn(v, s0, a)
    requires MatchEntry(LineText(v, a)).None?
    requires forall c :: a < c <= b ==> !IsLineStart(v, c)
    ensures NoEntryIn(v, s0, b + 1)
  {
  }
}
