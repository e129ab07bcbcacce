/** What `replace_all` computes, stated on its own: the flushes it performs (one per header
    that collected entries), the buffer positions `mark_replaced` marks for them, and the
    totals the file patcher accumulates. */
module Builder {
  import opened Lines
  import opened Grammar
  import opened Patch
  import opened Marks
  import opened Seqs

  /** One call of `apply_replace` that did work: the header's path, its entries in order,
      the header line's start and the start of its last entry line. */
  datatype Flush = Flush(path: string, entries: seq<Entry>, startPos: nat, endPos: nat)

  /** A scanned line with the grammar's verdict on it, as the loop of `replace_all` sees it. */
  datatype Tagged = Tagged(kind: Kind, start: nat)

  /** Classifies every line of a run. */
  function Tag(ls: seq<Line>): (ts: seq<Tagged>)
    ensures |ts| == |ls|
    decreases |ls|
  {
    if ls == [] then []
    else Tag(ls[..|ls| - 1]) + [Tagged(Classify(ls[|ls| - 1].text), ls[|ls| - 1].start)]
  }

  /** Each line's tag is the grammar's verdict on its text, at its start. */
  lemma {:induction false} TagAt(ls: seq<Line>, i: nat)
    requires i < |ls|
    ensures Tag(ls)[i] == Tagged(Classify(ls[i].text), ls[i].start)
    decreases |ls|
  {
    if i < |ls| - 1 {
      TagAt(ls[..|ls| - 1], i);
    }
  }

  /** No line of the run is a header, stated one line at a time from the front. */
  predicate NoHeader(ts: seq<Tagged>)
    decreases |ts|
  {
    ts == [] || (!ts[0].kind.HeaderLine? && NoHeader(ts[1..]))
  }

  /** `NoHeader` says of every line that it is not a header. */
  lemma {:induction false} NoHeaderElements(ts: seq<Tagged>)
    ensures NoHeader(ts) <==> forall j :: 0 <= j < |ts| ==> !ts[j].kind.HeaderLine?
    decreases |ts|
  {
    if ts != [] {
      NoHeaderElements(ts[1..]);
      assert forall j :: 1 <= j < |ts| ==> ts[j] == ts[1..][j - 1];
    }
  }

  /** A line that is not a header extends a run without headers. */
  lemma NoHeaderSnoc(ts: seq<Tagged>, t: Tagged)
    requires NoHeader(ts) && !t.kind.HeaderLine?
    ensures NoHeader(ts + [t])
  {
    NoHeaderElements(ts);
    NoHeaderElements(ts + [t]);
  }

  /** The lines before the first header. */
  function BodyOf(ts: seq<Tagged>): (b: seq<Tagged>)
    ensures |b| <= |ts| && b == ts[..|b|] && NoHeader(b)
    ensures |b| < |ts| ==> ts[|b|].kind.HeaderLine?
  {
    if ts == [] || ts[0].kind.HeaderLine? then []
    else
      var b := [ts[0]] + BodyOf(ts[1..]);
      assert b[1..] == BodyOf(ts[1..]);
      b
  }

  /** The entries a header collects from the lines that follow it, in order. */
  function EntriesOf(body: seq<Tagged>): seq<Entry>
  {
    if body == [] then []
    else
      EntriesOf(body[..|body| - 1])
      + match body[|body| - 1].kind case EntryLine(e) => [e] case _ => []
  }

  /** The start of the last entry line among `body`. */
  function LastEntryStart(body: seq<Tagged>): nat
  {
    if body == [] then 0
    else if body[|body| - 1].kind.EntryLine? then body[|body| - 1].start
    else LastEntryStart(body[..|body| - 1])
  }

  /** The flush `apply_replace(text, path, entries, start, end)` performs: one when there
      is a path and at least one entry, none otherwise. */
  function Pending(path: string, entries: seq<Entry>, startPos: nat, endPos: nat): seq<Flush>
  {
    if path != "" && |entries| > 0 then [Flush(path, entries, startPos, endPos)] else []
  }

  /** The flush for header `h` and the lines up to the next header: none when it collected
      no entry. */
  function Group(h: Tagged, body: seq<Tagged>): seq<Flush>
    requires h.kind.HeaderLine?
  {
    Pending(h.kind.path, EntriesOf(body), h.start, LastEntryStart(body))
  }

  /** The flushes of a run of lines, in document order: every header line flushes the
      entries among the lines up to the next header, when it has any. Lines before the
      first header belong to no block; blank and other lines neither end a block nor
      contribute to it. */
  function Blocks(ts: seq<Tagged>): seq<Flush>
  {
    if ts == [] then []
    else if ts[0].kind.HeaderLine? then Group(ts[0], BodyOf(ts[1..])) + Blocks(ts[1..])
    else Blocks(ts[1..])
  }

  /** Every flush carries a path and at least one entry: a header without entries is
      never flushed. */
  lemma {:induction false} BlocksHaveEntries(ts: seq<Tagged>)
    ensures forall i :: 0 <= i < |Blocks(ts)| ==> Blocks(ts)[i].path != "" && Blocks(ts)[i].entries != []
  {
    if ts != [] {
      BlocksHaveEntries(ts[1..]);
      if ts[0].kind.HeaderLine? {
        var g: seq<Flush> := Group(ts[0], BodyOf(ts[1..]));
        var rest: seq<Flush> := Blocks(ts[1..]);
        assert Blocks(ts) == g + rest;
        forall i | 0 <= i < |g + rest|
          ensures (g + rest)[i].path != "" && (g + rest)[i].entries != []
        {
          if i >= |g| {
            assert (g + rest)[i] == rest[i - |g|];
          }
        }
      }
    }
  }

  /** Without a header line there is nothing to flush. */
  lemma {:induction false} NoHeaderNoBlocks(ts: seq<Tagged>)
    requires NoHeader(ts)
    ensures Blocks(ts) == []
  {
    if ts != [] {
      NoHeaderNoBlocks(ts[1..]);
    }
  }

  lemma {:induction false} BodyOfAppend(x: seq<Tagged>, y: seq<Tagged>)
    requires y != [] && y[0].kind.HeaderLine?
    ensures BodyOf(x + y) == BodyOf(x)
  {
    if x == [] {
      assert x + y == y;
    } else {
      assert (x + y)[1..] == x[1..] + y;
      BodyOfAppend(x[1..], y);
    }
  }

  /** Blocks are independent: a header ends the block before it. */
  lemma {:induction false} BlocksAppend(x: seq<Tagged>, y: seq<Tagged>)
    requires y != [] && y[0].kind.HeaderLine?
    ensures Blocks(x + y) == Blocks(x) + Blocks(y)
  {
    if x == [] {
      assert x + y == y;
    } else {
      assert (x + y)[1..] == x[1..] + y;
      BlocksAppend(x[1..], y);
      if x[0].kind.HeaderLine? {
        BodyOfAppend(x[1..], y);
      }
    }
  }

  /** A run that starts at a header and holds no other header is a single block. */
  lemma SingleBlock(ts: seq<Tagged>)
    requires ts != [] && ts[0].kind.HeaderLine? && NoHeader(ts[1..])
    ensures Blocks(ts) == Group(ts[0], ts[1..])
  {
    NoHeaderNoBlocks(ts[1..]);
    BodyOfNoHeader(ts[1..]);
  }

  /** Without a header, the whole run is the body. */
  lemma {:induction false} BodyOfNoHeader(ts: seq<Tagged>)
    requires NoHeader(ts)
    ensures BodyOf(ts) == ts
    decreases |ts|
  {
    if ts != [] {
      BodyOfNoHeader(ts[1..]);
    }
  }

  /** Entries seen before any header are ignored: lines without a header in front of a run
      change none of its flushes. */
  lemma {:induction false} LeadingLinesIgnored(x: seq<Tagged>, y: seq<Tagged>)
    requires NoHeader(x)
    ensures Blocks(x + y) == Blocks(y)
  {
    if x == [] {
      assert x + y == y;
    } else {
      assert (x + y)[1..] == x[1..] + y;
      LeadingLinesIgnored(x[1..], y);
    }
  }

  /** A line that is neither a header nor an entry (a blank line, say) changes no flush
      wherever it stands: it neither ends a block nor adds to it. */
  lemma {:induction false} OtherLineIgnored(x: seq<Tagged>, t: Tagged, y: seq<Tagged>)
    requires t.kind.OtherLine?
    ensures Blocks(x + [t] + y) == Blocks(x + y)
    decreases |x|
  {
    if x == [] {
      assert x + [t] + y == [t] + y && ([t] + y)[1..] == y && x + y == y;
    } else {
      assert (x + [t] + y)[1..] == x[1..] + [t] + y;
      assert (x + y)[1..] == x[1..] + y;
      OtherLineIgnored(x[1..], t, y);
      if x[0].kind.HeaderLine? {
        BodyOfOther(x[1..], t, y);
      }
    }
  }

  /** The body after a header, with and without an other line inside it, gives the same
      entries and the same last entry start. */
  lemma {:induction false} BodyOfOther(x: seq<Tagged>, t: Tagged, y: seq<Tagged>)
    requires t.kind.OtherLine?
    ensures EntriesOf(BodyOf(x + [t] + y)) == EntriesOf(BodyOf(x + y))
    ensures LastEntryStart(BodyOf(x + [t] + y)) == LastEntryStart(BodyOf(x + y))
    decreases |x|
  {
    if x == [] {
      assert x + [t] + y == [t] + y && ([t] + y)[1..] == y && x + y == y;
      assert BodyOf([t] + y) == [t] + BodyOf(y);
      OtherInBody([], t, BodyOf(y));
      assert [] + [t] + BodyOf(y) == [t] + BodyOf(y) && [] + BodyOf(y) == BodyOf(y);
    } else if x[0].kind.HeaderLine? {
      assert (x + [t] + y)[0] == x[0] && (x + y)[0] == x[0];
    } else {
      assert (x + [t] + y)[1..] == x[1..] + [t] + y;
      assert (x + y)[1..] == x[1..] + y;
      var b1 := BodyOf(x[1..] + [t] + y);
      var b2 := BodyOf(x[1..] + y);
      BodyOfOther(x[1..], t, y);
      assert BodyOf(x + [t] + y) == [x[0]] + b1;
      assert BodyOf(x + y) == [x[0]] + b2;
      EntriesOfCons(x[0], b1);
      EntriesOfCons(x[0], b2);
    }
  }

  /** Prepending a line to a body puts its entry, if it is one, first, and keeps the last
      entry start unless the body holds no entry. */
  lemma {:induction false} EntriesOfCons(t: Tagged, body: seq<Tagged>)
    ensures EntriesOf([t] + body)
         == (match t.kind case EntryLine(e) => [e] case _ => []) + EntriesOf(body)
    ensures LastEntryStart([t] + body)
         == if EntriesOf(body) != [] then LastEntryStart(body)
            else if t.kind.EntryLine? then t.start else 0
    decreases |body|
  {
    if body == [] {
      assert [t] + body == [t] && [t][..0] == [];
    } else {
      var init := body[..|body| - 1];
      var z := body[|body| - 1];
      assert [t] + body == ([t] + init) + [z];
      assert body == init + [z];
      EntriesOfCons(t, init);
      EntriesOfSnoc([t] + init, z);
      EntriesOfSnoc(init, z);
    }
  }

  /** An other line inside a body changes neither its entries nor its last entry start. */
  lemma {:induction false} OtherInBody(a: seq<Tagged>, t: Tagged, b: seq<Tagged>)
    requires t.kind.OtherLine?
    ensures EntriesOf(a + [t] + b) == EntriesOf(a + b)
    ensures LastEntryStart(a + [t] + b) == LastEntryStart(a + b)
    decreases |b|
  {
    if b == [] {
      assert a + [t] + b == a + [t] && a + b == a;
      EntriesOfSnoc(a, t);
    } else {
      var init := b[..|b| - 1];
      var z := b[|b| - 1];
      assert a + [t] + b == (a + [t] + init) + [z];
      assert a + b == (a + init) + [z];
      OtherInBody(a, t, init);
      EntriesOfSnoc(a + [t] + init, z);
      EntriesOfSnoc(a + init, z);
    }
  }

  lemma EntriesOfSnoc(body: seq<Tagged>, t: Tagged)
    ensures EntriesOf(body + [t])
         == EntriesOf(body) + match t.kind case EntryLine(e) => [e] case _ => []
    ensures LastEntryStart(body + [t])
         == if t.kind.EntryLine? then t.start else LastEntryStart(body)
  {
    assert (body + [t])[..|body|] == body;
  }

  /** The positions `mark_replaced(text, start, end)` marks: the starts of the lines it
      walks (from `start`, while a line starts at or before `end`) that match either
      grammar. */
  function MarkPositions(text: string, start: nat, end: nat): seq<int>
  {
    MarksIn(LinesFrom(text, start), end, Matches)
  }

  /** The starts of the lines of `ls` that `keep` accepts, up to the first line that starts
      after `end`. */
  function MarksIn(ls: seq<Line>, end: int, keep: string -> bool): seq<int>
  {
    if ls == [] || ls[0].start > end then []
    else (if keep(ls[0].text) then [ls[0].start as int] else []) + MarksIn(ls[1..], end, keep)
  }

  lemma MarksInStep(l: Line, rest: seq<Line>, end: int, keep: string -> bool)
    requires l.start <= end
    ensures MarksIn([l] + rest, end, keep)
         == (if keep(l.text) then [l.start as int] else []) + MarksIn(rest, end, keep)
  {
    assert ([l] + rest)[1..] == rest;
  }

  /** The positions `mark_replaced`'s walk from text position `p` marks when the lines it
      marks are those `keep` accepts: the start of each newline-terminated line that starts
      at or before `end` and is accepted. */
  function MarksFrom(text: string, p: nat, end: nat, keep: string -> bool): seq<int>
    decreases |text| - p
  {
    if p > end then []
    else
      var nl := FindNewline(text, p);
      if nl < 0 then []
      else (if keep(text[p..nl]) then [p as int] else []) + MarksFrom(text, nl + 1, end, keep)
  }

  /** Walking from newline to newline and testing each line against both grammars marks
      the same positions as testing the lines `get_lines` yields. */
  lemma {:induction false} MarksFromLines(text: string, p: nat, end: nat, keep: string -> bool)
    ensures MarksFrom(text, p, end, keep) == MarksIn(LinesFrom(text, p), end, keep)
    decreases |text| - p
  {
    var nl := FindNewline(text, p);
    if nl >= 0 {
      LinesFromStep(text, p);
      var l := Line(text[p..nl], p);
      if p <= end {
        MarksFromLines(text, nl + 1, end, keep);
        MarksFromStep(text, p, end, keep);
        MarksInStep(l, LinesFrom(text, nl + 1), end, keep);
      } else {
        assert ([l] + LinesFrom(text, nl + 1))[0].start == p;
      }
    }
  }

  /** One step of the walk, from a line that starts at or before `end` and ends in a
      newline. */
  lemma MarksFromStep(text: string, p: nat, end: nat, keep: string -> bool)
    requires p <= end && FindNewline(text, p) >= 0
    ensures MarksFrom(text, p, end, keep)
         == (if keep(text[p..FindNewline(text, p)]) then [p as int] else [])
            + MarksFrom(text, FindNewline(text, p) + 1, end, keep)
  {
  }

  /** The text positions marked for a sequence of flushes, in order. */
  function AllMarks(text: string, fl: seq<Flush>): seq<int>
  {
    if fl == [] then []
    else
      var f := fl[|fl| - 1];
      AllMarks(text, fl[..|fl| - 1]) + MarkPositions(text, f.startPos, f.endPos)
  }

  /** The file contents and the two counters `replace_file` updates. */
  datatype Totals = Totals(contents: map<string, string>, replaced: nat, patched: nat)

  /** `replace_file(path, entries)`: the file is rewritten and both counters advance only
      when the read and the open for writing both succeed. */
  function PatchOne(t: Totals, writable: set<string>, path: string, reps: seq<Entry>, del: bool): Totals
  {
    if path in t.contents && path in writable then
      Totals(t.contents[path := Rewrite(t.contents[path], reps, del)], t.replaced + |reps|, t.patched + 1)
    else t
  }

  /** The totals after patching the file of every flush in turn. */
  function PatchAll(t: Totals, writable: set<string>, fl: seq<Flush>, del: bool): Totals
  {
    if fl == [] then t
    else
      var f := fl[|fl| - 1];
      PatchOne(PatchAll(t, writable, fl[..|fl| - 1], del), writable, f.path, f.entries, del)
  }

  lemma FlushSnoc(text: string, t: Totals, writable: set<string>, fl: seq<Flush>, f: Flush, del: bool)
    ensures AllMarks(text, fl + [f]) == AllMarks(text, fl) + MarkPositions(text, f.startPos, f.endPos)
    ensures PatchAll(t, writable, fl + [f], del)
         == PatchOne(PatchAll(t, writable, fl, del), writable, f.path, f.entries, del)
  {
    assert (fl + [f])[..|fl|] == fl;
  }

  /** The pending flush of `apply_replace` marks its block and patches its file, or does
      nothing. */
  lemma PendingFlush(text: string, t: Totals, writable: set<string>, path: string,
                     entries: seq<Entry>, startPos: nat, endPos: nat, del: bool)
    ensures path != "" && |entries| > 0 ==>
      AllMarks(text, Pending(path, entries, startPos, endPos)) == MarkPositions(text, startPos, endPos)
      && PatchAll(t, writable, Pending(path, entries, startPos, endPos), del)
         == PatchOne(t, writable, path, entries, del)
    ensures !(path != "" && |entries| > 0) ==>
      AllMarks(text, Pending(path, entries, startPos, endPos)) == []
      && PatchAll(t, writable, Pending(path, entries, startPos, endPos), del) == t
  {
    var fl := Pending(path, entries, startPos, endPos);
    if fl != [] {
      assert fl[..0] == [];
      assert AllMarks(text, fl) == [] + MarkPositions(text, startPos, endPos);
    }
  }

  /** Flushing one run and then another marks and patches what flushing both at once does. */
  lemma {:induction false} FlushAppend(text: string, t: Totals, writable: set<string>,
                                       fl: seq<Flush>, gl: seq<Flush>, del: bool)
    ensures AllMarks(text, fl + gl) == AllMarks(text, fl) + AllMarks(text, gl)
    ensures PatchAll(t, writable, fl + gl, del)
         == PatchAll(PatchAll(t, writable, fl, del), writable, gl, del)
    decreases |gl|
  {
    if gl == [] {
      assert fl + gl == fl;
    } else {
      var init := gl[..|gl| - 1];
      var g := gl[|gl| - 1];
      assert gl == init + [g];
      assert fl + gl == (fl + init) + [g];
      FlushAppend(text, t, writable, fl, init, del);
      FlushSnoc(text, t, writable, fl + init, g, del);
      FlushSnoc(text, PatchAll(t, writable, fl, del), writable, init, g, del);
      AppendAssoc(AllMarks(text, fl), AllMarks(text, init), MarkPositions(text, g.startPos, g.endPos));
    }
  }

  /** The record of a run that started from the flushes `f0` and the totals `t0` and has
      performed the flushes `done`: the flushes `fl`, the marks `mk` (all before `b`) and
      the totals `t` are those of `done`. */
  ghost predicate Recorded(text: string, t0: Totals, writable: set<string>, del: bool,
                           f0: seq<Flush>, done: seq<Flush>, b: int,
                           fl: seq<Flush>, mk: seq<int>, t: Totals)
  {
    fl == f0 + done && mk == AllMarks(text, done) && (mk == [] || mk[|mk| - 1] < b)
    && t == PatchAll(t0, writable, done, del)
  }

  /** The flushes, marks and totals of `done` followed by those of `p` are those of
      `done + p`. */
  lemma FlushedMore(text: string, t0: Totals, writable: set<string>, del: bool, f0: seq<Flush>,
                    done: seq<Flush>, p: seq<Flush>, fl: seq<Flush>, mk: seq<int>, t: Totals)
    requires fl == (f0 + done) + p
    requires mk == AllMarks(text, done) + AllMarks(text, p)
    requires t == PatchAll(PatchAll(t0, writable, done, del), writable, p, del)
    ensures fl == f0 + (done + p)
    ensures mk == AllMarks(text, done + p)
    ensures t == PatchAll(t0, writable, done + p, del)
  {
    AppendAssoc(f0, done, p);
    FlushAppend(text, t0, writable, done, p, del);
  }

  /** Performing the pending flush of a block that ends before `next` extends the record
      by that flush. */
  lemma RecordedPending(text: string, t0: Totals, writable: set<string>, del: bool,
                        f0: seq<Flush>, done: seq<Flush>, b: int,
                        fl: seq<Flush>, mk: seq<int>, t: Totals,
                        path: string, entries: seq<Entry>, startPos: nat, endPos: nat, next: int,
                        fl': seq<Flush>, mk': seq<int>, t': Totals)
    requires Recorded(text, t0, writable, del, f0, done, b, fl, mk, t)
    requires done == [] || b <= next
    requires path != "" && |entries| > 0 ==> endPos < next
    requires fl' == fl + Pending(path, entries, startPos, endPos)
    requires mk' == mk + AllMarks(text, Pending(path, entries, startPos, endPos))
    requires t' == PatchAll(t, writable, Pending(path, entries, startPos, endPos), del)
    ensures Recorded(text, t0, writable, del, f0, done + Pending(path, entries, startPos, endPos),
                     next, fl', mk', t')
  {
    var p := Pending(path, entries, startPos, endPos);
    AppendAssoc(f0, done, p);
    FlushAppend(text, t0, writable, done, p, del);
    PendingMarksBelow(mk, text, path, entries, startPos, endPos, next);
  }

  /** The marks of a flush that ends before `b`, added after marks that end before `b`,
      still end before `b`. */
  lemma PendingMarksBelow(m: seq<int>, text: string, path: string, entries: seq<Entry>,
                          startPos: nat, endPos: nat, b: int)
    requires m == [] || m[|m| - 1] < b
    requires path != "" && |entries| > 0 ==> endPos < b
    ensures var r := m + AllMarks(text, Pending(path, entries, startPos, endPos));
      r == [] || r[|r| - 1] < b
  {
    var fl := Pending(path, entries, startPos, endPos);
    if fl != [] {
      MarkPositionsExact(text, startPos, endPos);
      assert AllMarks(text, fl) == [] + MarkPositions(text, startPos, endPos);
    }
  }

  /** Line starts strictly increase along a run. */
  ghost predicate Ascending(ls: seq<Line>)
  {
    forall i, j :: 0 <= i < j < |ls| ==> ls[i].start < ls[j].start
  }

  lemma {:induction false} LinesFromAscending(s: string, from: nat)
    ensures Ascending(LinesFrom(s, from))
    ensures forall i :: 0 <= i < |LinesFrom(s, from)| ==> from <= LinesFrom(s, from)[i].start
    decreases |s| - from
  {
    var nl := FindNewline(s, from);
    if nl >= 0 {
      LinesFromAscending(s, nl + 1);
      var rest := LinesFrom(s, nl + 1);
      var ls := [Line(s[from..nl], from)] + rest;
      assert LinesFrom(s, from) == ls;
      assert forall i :: 1 <= i < |ls| ==> ls[i] == rest[i - 1];
    }
  }

  /** Of two scanned lines, the earlier starts first. */
  lemma LineBefore(s: string, i: nat, j: nat)
    requires i < j < |LinesFrom(s, 0)|
    ensures LinesFrom(s, 0)[i].start < LinesFrom(s, 0)[j].start
  {
    LinesFromAscending(s, 0);
  }

  /** `mark_replaced` marks exactly the walked lines that match either grammar: the marked
      positions ascend, lie between `start` and `end`, are line starts of the walk, and a
      walked line starting at or before `end` is marked if and only if it matches. */
  lemma {:induction false} MarkPositionsExact(text: string, start: nat, end: nat)
    ensures Increasing(MarkPositions(text, start, end))
    ensures forall i :: 0 <= i < |MarkPositions(text, start, end)| ==>
      start <= MarkPositions(text, start, end)[i] <= end
    ensures forall i :: 0 <= i < |LinesFrom(text, start)| ==>
      (LinesFrom(text, start)[i].start as int in MarkPositions(text, start, end) <==>
         LinesFrom(text, start)[i].start <= end && Matches(LinesFrom(text, start)[i].text))
    ensures forall p :: p in MarkPositions(text, start, end) ==>
      exists i :: 0 <= i < |LinesFrom(text, start)| && LinesFrom(text, start)[i].start == p
  {
    var ls := LinesFrom(text, start);
    var m := MarkPositions(text, start, end);
    assert m == MarksIn(ls, end, Matches);
    LinesFromAscending(text, start);
    MarksInExact(ls, start, end, Matches);
    forall p | p in m
      ensures exists i :: 0 <= i < |ls| && ls[i].start == p
    {
      assert p in MarksIn(ls, end, Matches);
    }
  }

  lemma {:induction false} MarksInExact(ls: seq<Line>, lo: int, end: int, keep: string -> bool)
    requires Ascending(ls) && forall i :: 0 <= i < |ls| ==> lo <= ls[i].start
    ensures Increasing(MarksIn(ls, end, keep))
    ensures forall i :: 0 <= i < |MarksIn(ls, end, keep)| ==> lo <= MarksIn(ls, end, keep)[i] <= end
    ensures forall i :: 0 <= i < |ls| ==>
      (ls[i].start as int in MarksIn(ls, end, keep) <==> ls[i].start <= end && keep(ls[i].text))
    ensures forall p :: p in MarksIn(ls, end, keep) ==> exists i :: 0 <= i < |ls| && ls[i].start == p
  {
    MarksInStarts(ls, end, keep);
    MarksInOrdered(ls, lo, end, keep);
    MarksInMembers(ls, end, keep);
  }

  /** Every mark is the start of one of the lines. */
  lemma {:induction false} MarksInStarts(ls: seq<Line>, end: int, keep: string -> bool)
    ensures forall p :: p in MarksIn(ls, end, keep) ==> exists i :: 0 <= i < |ls| && ls[i].start == p
    decreases |ls|
  {
    if ls != [] && ls[0].start <= end {
      var tail := ls[1..];
      MarksInStarts(tail, end, keep);
      forall p | p in MarksIn(ls, end, keep)
        ensures exists i :: 0 <= i < |ls| && ls[i].start == p
      {
        if p in MarksIn(tail, end, keep) {
          var i :| 0 <= i < |tail| && tail[i].start == p;
          assert ls[i + 1].start == p;
        } else {
          assert ls[0].start == p;
        }
      }
    }
  }

  /** The marks ascend and lie between the first start and `end`. */
  lemma {:induction false} MarksInOrdered(ls: seq<Line>, lo: int, end: int, keep: string -> bool)
    requires Ascending(ls) && forall i :: 0 <= i < |ls| ==> lo <= ls[i].start
    ensures Increasing(MarksIn(ls, end, keep))
    ensures forall i :: 0 <= i < |MarksIn(ls, end, keep)| ==> lo <= MarksIn(ls, end, keep)[i] <= end
    decreases |ls|
  {
    if ls != [] && ls[0].start <= end {
      var tail := ls[1..];
      assert forall i :: 1 <= i < |ls| ==> ls[i] == tail[i - 1];
      MarksInOrdered(tail, ls[0].start + 1, end, keep);
    }
  }

  /** A line starting at or before `end` is marked exactly when `keep` accepts it. */
  lemma {:induction false} MarksInMembers(ls: seq<Line>, end: int, keep: string -> bool)
    requires Ascending(ls)
    ensures forall i :: 0 <= i < |ls| ==>
      (ls[i].start as int in MarksIn(ls, end, keep) <==> ls[i].start <= end && keep(ls[i].text))
    decreases |ls|
  {
    if ls != [] {
      var tail := ls[1..];
      assert forall i :: 1 <= i < |ls| ==> ls[i] == tail[i - 1];
      MarksInMembers(tail, end, keep);
      MarksInStarts(tail, end, keep);
      var rest := MarksIn(tail, end, keep);
      var m := MarksIn(ls, end, keep);
      var head: seq<int> := if keep(ls[0].text) then [ls[0].start as int] else [];
      forall i | 0 <= i < |ls|
        ensures ls[i].start as int in m <==> ls[i].start <= end && keep(ls[i].text)
      {
        if ls[0].start > end {
          assert ls[0].start < ls[i].start || i == 0;
        } else if i > 0 {
          assert m == head + rest;
          assert ls[i] == tail[i - 1];
          assert ls[i].start as int !in head;
        } else {
          assert m == head + rest;
          assert ls[0].start as int !in rest;
        }
      }
    }
  }

  /** The line of `text` starting at `p` is `t`: it ends in a newline, holds none itself, and
      matches either grammar. */
  ghost predicate MatchingLineAt(text: string, p: int, t: string)
  {
    0 <= p && p + |t| < |text| && text[p..p + |t|] == t && text[p + |t|] == '\n'
    && '\n' !in t && Matches(t)
  }

  /** Every position marked for a run of flushes starts a newline-terminated line of the
      text that matches either grammar. */
  lemma {:induction false} AllMarksOnLines(text: string, fl: seq<Flush>, p: int)
    requires p in AllMarks(text, fl)
    ensures exists t :: MatchingLineAt(text, p, t)
    decreases |fl|
  {
    var init := fl[..|fl| - 1];
    var f := fl[|fl| - 1];
    if p in AllMarks(text, init) {
      AllMarksOnLines(text, init, p);
    } else {
      MarkedLineMatches(text, f.startPos, f.endPos, p);
    }
  }

  /** A position `mark_replaced` marks starts a line that matches either grammar. */
  lemma MarkedLineMatches(text: string, start: nat, end: nat, p: int)
    requires p in MarkPositions(text, start, end)
    ensures exists t :: MatchingLineAt(text, p, t)
  {
    var ls := LinesFrom(text, start);
    MarksInStarts(ls, end, Matches);
    var i :| 0 <= i < |ls| && ls[i].start == p;
    LinesFromAscending(text, start);
    MarksInMembers(ls, end, Matches);
    assert Matches(ls[i].text);
    LinesFromCut(text, start);
    assert Cut(text, ls[i]);
    assert MatchingLineAt(text, p, ls[i].text);
  }

  /** Where the marks of a run land in the buffer `v` whose text from `s` on was scanned: the
      k-th `#` sits at the marked text position plus `s` plus k, and the character right
      after it is the first character of a line that matches either grammar. So the line
      now reads `#` followed by its old text, which matches neither grammar. */
  lemma MarksLand(v: string, s: nat, text: string, fl: seq<Flush>, k: nat)
    requires s + |text| <= |v| && text == v[s..s + |text|]
    requires Ordered(AllMarks(text, fl), |v| - s) && k < |AllMarks(text, fl)|
    ensures var ps := AllMarks(text, fl);
      0 <= ps[k] < |text| && s + ps[k] + k + 1 < |Marked(v, s, ps)|
      && Marked(v, s, ps)[s + ps[k] + k] == '#' && Marked(v, s, ps)[s + ps[k] + k + 1] == text[ps[k]]
      && exists t :: MatchingLineAt(text, ps[k], t) && t[0] == text[ps[k]]
  {
    var ps := AllMarks(text, fl);
    AllMarksOnLines(text, fl, ps[k]);
    var t :| MatchingLineAt(text, ps[k], t);
    MatchesNonEmpty(t);
    assert t[0] == text[ps[k]];
    MarkedPlacement(v, s, ps, k);
  }

  /** A line either grammar matches is not empty. */
  lemma MatchesNonEmpty(t: string)
    requires Matches(t)
    ensures |t| > 0
  {
  }

  /** A text as a run leaves it (every line blank, marked with `#`, or one the marking
      passed over because it matches neither grammar, such as a context line) yields no
      flush: no file is written and nothing is marked again. */
  lemma MarkedTextNoFlush(text: string)
    requires forall i :: 0 <= i < |LinesFrom(text, 0)| ==>
      IsBlank(LinesFrom(text, 0)[i].text)
      || (|LinesFrom(text, 0)[i].text| > 0 && LinesFrom(text, 0)[i].text[0] == '#')
      || !Matches(LinesFrom(text, 0)[i].text)
    ensures Blocks(Tag(LinesFrom(text, 0))) == []
  {
    var ls := LinesFrom(text, 0);
    forall i | 0 <= i < |ls|
      ensures !Tag(ls)[i].kind.HeaderLine?
    {
      TagAt(ls, i);
      ClassifySound(ls[i].text);
      if !IsBlank(ls[i].text) && |ls[i].text| > 0 && ls[i].text[0] == '#' {
        MarkedLineMatchesNeither(ls[i].text);
      }
    }
    NoHeaderElements(Tag(ls));
    NoHeaderNoBlocks(Tag(ls));
  }

  /** The flushes whose file could be read and opened for writing, given the files that
      exist and those that may be written. */
  function Applied(fl: seq<Flush>, files: set<string>, writable: set<string>): seq<Flush>
  {
    if fl == [] then []
    else
      var f := fl[|fl| - 1];
      Applied(fl[..|fl| - 1], files, writable)
      + if f.path in files && f.path in writable then [f] else []
  }

  /** The number of entries of a run of flushes. */
  function EntryCount(fl: seq<Flush>): nat
  {
    if fl == [] then 0 else EntryCount(fl[..|fl| - 1]) + |fl[|fl| - 1].entries|
  }

  /** What a sequence of `replace_file` calls adds up to: no file appears or disappears,
      the file counter grows by the number of flushes whose file could be read and
      written, and the replacement counter by their entries (not by the lines changed). */
  lemma {:induction false} PatchAllTotals(t: Totals, writable: set<string>, fl: seq<Flush>, del: bool)
    ensures PatchAll(t, writable, fl, del).contents.Keys == t.contents.Keys
    ensures PatchAll(t, writable, fl, del).patched == t.patched + |Applied(fl, t.contents.Keys, writable)|
    ensures PatchAll(t, writable, fl, del).replaced
         == t.replaced + EntryCount(Applied(fl, t.contents.Keys, writable))
    decreases |fl|
  {
    if fl != [] {
      var init := fl[..|fl| - 1];
      var f := fl[|fl| - 1];
      PatchAllTotals(t, writable, init, del);
      var a := Applied(init, t.contents.Keys, writable);
      if f.path in t.contents && f.path in writable {
        assert Applied(fl, t.contents.Keys, writable) == a + [f];
        assert (a + [f])[..|a|] == a;
      } else {
        assert Applied(fl, t.contents.Keys, writable) == a;
      }
    }
  }

  /** A file that no flush names keeps its content. */
  lemma {:induction false} PatchAllKeeps(t: Totals, writable: set<string>, fl: seq<Flush>, del: bool,
                                         p: string)
    requires p in t.contents && forall i :: 0 <= i < |fl| ==> fl[i].path != p
    ensures p in PatchAll(t, writable, fl, del).contents
    ensures PatchAll(t, writable, fl, del).contents[p] == t.contents[p]
    decreases |fl|
  {
    if fl != [] {
      var init := fl[..|fl| - 1];
      assert forall i :: 0 <= i < |init| ==> init[i] == fl[i];
      PatchAllKeeps(t, writable, init, del, p);
      assert fl[|fl| - 1].path != p;
    }
  }

  /** Reaching a header, or the end of the run, at line `k` closes the block of the
      previous header `h`: the flushes of the lines before `k` are those before `h` plus the
      pending flush of `h`. Before the first header (`h < 0`) there is nothing to flush. */
  lemma BlockClosed(ts: seq<Tagged>, h: int, k: nat, done: seq<Flush>, path: string,
                    entries: seq<Entry>, startPos: nat, endPos: nat)
    requires -1 <= h < k <= |ts|
    requires h < 0 ==> NoHeader(ts[..k]) && path == "" && done == []
    requires h >= 0 ==>
      ts[h].kind.HeaderLine? && NoHeader(ts[h + 1..k]) && done == Blocks(ts[..h])
      && path == ts[h].kind.path && startPos == ts[h].start && entries == EntriesOf(ts[h + 1..k])
      && (entries != [] ==> endPos == LastEntryStart(ts[h + 1..k]))
    ensures Blocks(ts[..k]) == done + Pending(path, entries, startPos, endPos)
  {
    if h < 0 {
      NoHeaderNoBlocks(ts[..k]);
    } else {
      CloseBlock(ts, h, k);
    }
  }

  /** Closing the block of header `h` at line `k` adds its group to the flushes so far. */
  lemma CloseBlock(ts: seq<Tagged>, h: nat, k: nat)
    requires h < k <= |ts| && ts[h].kind.HeaderLine? && NoHeader(ts[h + 1..k])
    ensures Blocks(ts[..k]) == Blocks(ts[..h]) + Group(ts[h], ts[h + 1..k])
  {
    assert ts[..k] == ts[..h] + ts[h..k];
    assert ts[h..k][1..] == ts[h + 1..k];
    BlocksAppend(ts[..h], ts[h..k]);
    SingleBlock(ts[h..k]);
  }
}
