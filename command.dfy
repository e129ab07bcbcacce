/** The command object: its buffer, the insertion offset, the two counters and the
    per-run delete flag, with the operations of a run that patch files and mark lines. */
module Command {
  import opened Options
  import opened Lines
  import opened Grammar
  import opened Patch
  import opened Marks
  import opened Builder
  import opened Seqs
  import opened FileSys
  import opened Navigation

  /** The text a run scans: the buffer without its last character. */
  function BufferText(v: string): (t: string)
    ensures |v| > 0 ==> v == t + [v[|v| - 1]]
    ensures |v| == 0 ==> t == ""
  {
    if |v| == 0 then "" else v[..|v| - 1]
  }

  /** The buffer `view` is `base` with a `#` inserted before each marked text position
      (text positions count from buffer position `seed`), and the offset `off` is the
      scanned text's buffer position plus the number of marks inserted. */
  ghost predicate Placed(view: string, off: int, base: string, seed: nat, marks: seq<int>)
  {
    seed <= |base| && Ordered(marks, |base| - seed)
    && view == Marked(base, seed, marks) && off == seed + |marks|
  }

  /** The loop of `mark_replaced` on the buffer and offset it updates: each line of `text`
      from `start` that begins at or before `end` and matches either grammar gets a `#`
      inserted at buffer position `pos + 1 + off`, and `off` counts the insertion. */
  method MarkWalk(view: string, off: int, text: string, start: nat, end: nat,
                  keep: string -> bool, ghost base: string, ghost seed: nat, ghost marks: seq<int>)
    returns (view': string, off': int, ghost marks': seq<int>)
    requires Placed(view, off, base, seed, marks)
    requires FindNewline(text, end) >= 0 && seed + |text| <= |base|
    requires marks == [] || marks[|marks| - 1] < start
    ensures Placed(view', off', base, seed, marks')
    ensures marks' == marks + MarksFrom(text, start, end, keep)
    ensures off' == off + |MarksFrom(text, start, end, keep)|
  {
    view', off', marks' := view, off, marks;
    var pos: int := start - 1;
    ghost var done: seq<int> := [];
    while pos < end
      invariant Walked(text, start, end, keep, pos, base, seed, marks, done, view', off', marks')
      decreases end - pos
    {
      view', off', pos, done, marks' := WalkStep(text, start, end, keep, pos, base, seed, marks, done,
                                                 view', off', marks');
    }
    assert done + [] == done;
  }

  /** Where `mark_replaced`'s walk stands after the lines before `pos + 1`: the buffer holds
      the marks `marks` had plus the marks `done` of those lines, which are the first of
      the marks of the whole walk. */
  ghost predicate Walked(text: string, start: nat, end: nat, keep: string -> bool, pos: int,
                         base: string, seed: nat, marks: seq<int>, done: seq<int>,
                         view: string, off: int, marks': seq<int>)
  {
    start - 1 <= pos && Placed(view, off, base, seed, marks')
    && MarksFrom(text, start, end, keep) == done + MarksFrom(text, pos + 1, end, keep)
    && (marks' == [] || marks'[|marks'| - 1] < pos + 1)
    && marks' == marks + done
  }

  /** One pass of `mark_replaced`'s loop: the next line, marked when `keep` accepts it. */
  method WalkStep(text: string, start: nat, end: nat, keep: string -> bool, pos: int,
                  ghost base: string, ghost seed: nat, ghost marks: seq<int>, ghost done: seq<int>,
                  view: string, off: int, ghost marks': seq<int>)
    returns (view'': string, off'': int, pos': int, ghost done': seq<int>, ghost marks'': seq<int>)
    requires FindNewline(text, end) >= 0 && seed + |text| <= |base| && pos < end
    requires Walked(text, start, end, keep, pos, base, seed, marks, done, view, off, marks')
    ensures pos < pos'
    ensures Walked(text, start, end, keep, pos', base, seed, marks, done', view'', off'', marks'')
  {
    var p := pos + 1;
    FindNewlineReaches(text, p, end);
    var hit: bool;
    pos', hit := NextLine(text, p, end, keep);
    ghost var added: seq<int> := if hit then [p] else [];
    view'', off'', marks'' := MarkIf(hit, view, off, p, base, seed, marks');
    AppendAssoc(marks, done, added);
    AppendAssoc(done, added, MarksFrom(text, pos' + 1, end, keep));
    done' := done + added;
  }

  /** The line of `mark_replaced`'s walk that starts at text position `p`: where its newline
      is, and whether the walk marks it. */
  method NextLine(text: string, p: nat, ghost end: nat, keep: string -> bool) returns (next: nat, hit: bool)
    requires p <= end && FindNewline(text, p) >= 0
    ensures next == FindNewline(text, p) && p <= next
    ensures MarksFrom(text, p, end, keep) == (if hit then [p as int] else []) + MarksFrom(text, next + 1, end, keep)
  {
    next := FindNewline(text, p);
    hit := keep(text[p..next]);
  }

  /** `view.insert(edit, p + off, '#')` followed by `off += 1` when `hit`: marks text
      position `p`, or changes nothing. */
  method MarkIf(hit: bool, view: string, off: int, p: nat, ghost base: string, ghost seed: nat,
                ghost marks: seq<int>)
    returns (view': string, off': int, ghost marks': seq<int>)
    requires Placed(view, off, base, seed, marks) && seed + p <= |base|
    requires marks == [] || marks[|marks| - 1] < p
    ensures Placed(view', off', base, seed, marks')
    ensures marks' == marks + (if hit then [p] else [])
    ensures marks' == [] || marks'[|marks'| - 1] <= p
    ensures off' == off + (if hit then 1 else 0) && |view'| == |view| + (if hit then 1 else 0)
    ensures hit ==> view'[p + off] == '#' && view'[..p + off] == view[..p + off]
  {
    if hit {
      MarkedSnoc(base, seed, marks, p);
      view' := view[..p + off] + "#" + view[p + off..];
      off' := off + 1;
      marks' := marks + [p];
    } else {
      view', off', marks' := view, off, marks;
      assert marks + [] == marks;
    }
  }

  /** How `replace_all` tests one line: a non-blank line is a header when the header regex
      matches it, and otherwise, once a header has been seen, an entry when the entry regex
      matches it. The outcome is the line's classification. */
  method ReadLine(line: string, curFile: string) returns (header: Option<string>, entry: Option<Entry>)
    ensures header.Some? ==> Classify(line) == HeaderLine(header.value)
    ensures header.None? && entry.Some? ==> curFile != "" && Classify(line) == EntryLine(entry.value)
    ensures header.None? && entry.None? ==>
      !Classify(line).HeaderLine? && (curFile != "" ==> !Classify(line).EntryLine?)
  {
    header, entry := None, None;
    if !IsBlank(line) {
      header := MatchHeader(line);
      if header.None? && curFile != "" {
        entry := MatchEntry(line);
      }
    }
  }

  /** The locals of `replace_all` after its first `k` lines: `h` is the last header line so
      far (-1 before any), `e` the last entry line of its block, and `done` the flushes of
      the blocks already closed. The path is the header's, the entries are those of the
      lines after it, the start is the header's and the end is the last entry's. */
  ghost predicate Scanned(text: string, k: nat, h: int, e: int, done: seq<Flush>,
                          curFile: string, reps: seq<Entry>, startPos: nat, endPos: nat)
  {
    var ts := Tag(LinesFrom(text, 0));
    k <= |ts| && -1 <= h < k
    && (h < 0 ==> NoHeader(ts[..k]) && curFile == "" && reps == [] && done == [])
    && (h >= 0 ==>
          ts[h].kind.HeaderLine? && NoHeader(ts[h + 1..k]) && done == Blocks(ts[..h])
          && curFile == ts[h].kind.path && curFile != "" && startPos == ts[h].start
          && reps == EntriesOf(ts[h + 1..k]))
    && (reps != [] ==>
          h < e < k && endPos == ts[e].start && endPos == LastEntryStart(ts[h + 1..k])
          && FindNewline(text, endPos) >= 0)
  }

  /** A header line closes the open block and opens its own. The closed block started
      before the header, and so did its last entry. */
  lemma HeaderStep(text: string, k: nat, h: int, e: int, done: seq<Flush>,
                   curFile: string, reps: seq<Entry>, startPos: nat, endPos: nat, path: string)
    requires Scanned(text, k, h, e, done, curFile, reps, startPos, endPos)
    requires k < |LinesFrom(text, 0)| && Classify(LinesFrom(text, 0)[k].text) == HeaderLine(path)
    ensures Scanned(text, k + 1, k, e, done + Pending(curFile, reps, startPos, endPos),
                    path, [], LinesFrom(text, 0)[k].start, endPos)
    ensures h < 0 ==> done == []
    ensures h >= 0 ==> startPos < LinesFrom(text, 0)[k].start
    ensures reps != [] ==> endPos < LinesFrom(text, 0)[k].start
  {
    var ls := LinesFrom(text, 0);
    var ts := Tag(ls);
    TagAt(ls, k);
    ClassifySound(ls[k].text);
    if h >= 0 {
      TagAt(ls, h);
      LineBefore(text, h, k);
    }
    if reps != [] {
      TagAt(ls, e);
      LineBefore(text, e, k);
    }
    BlockClosed(ts, h, k, done, curFile, reps, startPos, endPos);
    assert ts[k + 1..k + 1] == [];
  }

  /** An entry line after a header joins the open block and becomes its last entry. */
  lemma EntryStep(text: string, k: nat, h: int, e: int, done: seq<Flush>,
                  curFile: string, reps: seq<Entry>, startPos: nat, endPos: nat, entry: Entry)
    requires Scanned(text, k, h, e, done, curFile, reps, startPos, endPos)
    requires k < |LinesFrom(text, 0)| && curFile != ""
    requires Classify(LinesFrom(text, 0)[k].text) == EntryLine(entry)
    ensures Scanned(text, k + 1, h, k, done, curFile, reps + [entry], startPos,
                    LinesFrom(text, 0)[k].start)
  {
    var ls := LinesFrom(text, 0);
    var ts := Tag(ls);
    TagAt(ls, k);
    LineEndsAtNewline(text, k);
    SliceSnoc(ts, h + 1, k);
    EntriesOfSnoc(ts[h + 1..k], ts[k]);
    NoHeaderSnoc(ts[h + 1..k], ts[k]);
  }

  /** Any other line, and an entry line before the first header, changes nothing. */
  lemma OtherStep(text: string, k: nat, h: int, e: int, done: seq<Flush>,
                  curFile: string, reps: seq<Entry>, startPos: nat, endPos: nat)
    requires Scanned(text, k, h, e, done, curFile, reps, startPos, endPos)
    requires k < |LinesFrom(text, 0)| && !Classify(LinesFrom(text, 0)[k].text).HeaderLine?
    requires curFile != "" ==> !Classify(LinesFrom(text, 0)[k].text).EntryLine?
    ensures Scanned(text, k + 1, h, e, done, curFile, reps, startPos, endPos)
  {
    var ls := LinesFrom(text, 0);
    var ts := Tag(ls);
    TagAt(ls, k);
    if h >= 0 {
      SliceSnoc(ts, h + 1, k);
      EntriesOfSnoc(ts[h + 1..k], ts[k]);
      NoHeaderSnoc(ts[h + 1..k], ts[k]);
    } else {
      SliceSnoc(ts, 0, k);
      assert ts[0..k] == ts[..k] && ts[0..k + 1] == ts[..k + 1];
      NoHeaderSnoc(ts[..k], ts[k]);
    }
  }

  /** At the end of the text, the closed blocks and the pending flush are all the blocks. */
  lemma ScanDone(text: string, h: int, e: int, done: seq<Flush>,
                 curFile: string, reps: seq<Entry>, startPos: nat, endPos: nat)
    requires Scanned(text, |LinesFrom(text, 0)|, h, e, done, curFile, reps, startPos, endPos)
    ensures Blocks(Tag(LinesFrom(text, 0))) == done + Pending(curFile, reps, startPos, endPos)
  {
    var ts := Tag(LinesFrom(text, 0));
    BlockClosed(ts, h, |ts|, done, curFile, reps, startPos, endPos);
    assert ts[..|ts|] == ts;
  }

  class EditableReplace {
    /** The "Find Results" buffer. */
    var view: string
    /** The number of characters inserted so far plus the scanned text's buffer position. */
    var off: int
    var files: nat
    var replaced: nat
    var modedel: bool
    const fs: FileSystem

    /** Every flush performed, in order. */
    ghost var flushes: seq<Flush>
    /** The buffer before any mark of this run, the text positions marked so far (as
        positions of `base`), and the buffer position of the scanned text. */
    ghost var base: string
    ghost var marks: seq<int>
    ghost var seed: nat

    /** The buffer is the original with a `#` inserted before each marked text position
        (text positions count from buffer position `seed`), and the offset is the scanned
        text's buffer position plus the number of marks inserted. */
    ghost predicate Valid()
      reads this`view, this`off, this`base, this`seed, this`marks
    {
      Placed(view, off, base, seed, marks)
    }

    /** The file contents and both counters. */
    ghost function Outcome(): Totals
      reads this`replaced, this`files, fs`contents
    {
      Totals(fs.contents, replaced, files)
    }

    constructor (view: string, fs: FileSystem)
      ensures this.view == view && this.fs == fs && off == 0 && files == 0 && replaced == 0
      ensures !modedel && flushes == [] && base == view && marks == [] && seed == 0
      ensures Valid()
    {
      this.view := view;
      this.fs := fs;
      off := 0;
      files := 0;
      replaced := 0;
      modedel := false;
      flushes := [];
      base := view;
      marks := [];
      seed := 0;
    }

    /** `replace_file(filename, replaces)`: read the file, overwrite it with the rewritten
        lines and count the entries and the file, unless reading or opening for writing
        fails. */
    method ReplaceFile(filename: string, reps: seq<Entry>)
      modifies this`replaced, this`files, fs`contents
      ensures Outcome() == PatchOne(old(Outcome()), fs.writable, filename, reps, modedel)
    {
      var content := fs.Read(filename);
      if content.Some? {
        var written := ReplaceLine(content.value, reps, modedel);
        var ok := fs.Write(filename, written);
        if ok {
          replaced := replaced + |reps|;
          files := files + 1;
        }
      }
    }

    /** `mark_replaced(text, start, end)`: walk the lines of `text` from `start` while they
        start at or before `end`, and insert `#` at buffer position `pos + 1 + off` before
        each line that matches either grammar, counting the insertion in `off`. */
    method MarkReplaced(text: string, start: nat, end: nat)
      requires Valid() && FindNewline(text, end) >= 0 && seed + |text| <= |base|
      requires marks == [] || marks[|marks| - 1] < start
      modifies this`view, this`off, this`marks
      ensures Valid()
      ensures marks == old(marks) + MarkPositions(text, start, end)
      ensures off == old(off) + |MarkPositions(text, start, end)|
    {
      view, off, marks := MarkWalk(view, off, text, start, end, Matches, base, seed, marks);
      MarksFromLines(text, start, end, Matches);
    }

    /** `apply_replace`: with a path and at least one entry, patch the file and mark the
        block; the marking happens whether or not the file could be patched. */
    method ApplyReplace(text: string, curFile: string, reps: seq<Entry>, startPos: nat, endPos: nat)
      requires Valid() && seed + |text| <= |base|
      requires curFile != "" && |reps| > 0 ==>
        FindNewline(text, endPos) >= 0 && (marks == [] || marks[|marks| - 1] < startPos)
      modifies this`view, this`off, this`marks, this`replaced, this`files, this`flushes, fs`contents
      ensures Valid()
      ensures flushes == old(flushes) + Pending(curFile, reps, startPos, endPos)
      ensures marks == old(marks) + AllMarks(text, Pending(curFile, reps, startPos, endPos))
      ensures Outcome() == PatchAll(old(Outcome()), fs.writable, Pending(curFile, reps, startPos, endPos), modedel)
    {
      ghost var t := Outcome();
      if curFile != "" && |reps| > 0 {
        FlushBlock(text, curFile, reps, startPos, endPos);
      }
      PendingFlush(text, t, fs.writable, curFile, reps, startPos, endPos, modedel);
    }

    /** The body of `apply_replace` once its guard holds. */
    method FlushBlock(text: string, curFile: string, reps: seq<Entry>, startPos: nat, endPos: nat)
      requires Valid() && seed + |text| <= |base|
      requires FindNewline(text, endPos) >= 0 && (marks == [] || marks[|marks| - 1] < startPos)
      modifies this`view, this`off, this`marks, this`replaced, this`files, this`flushes, fs`contents
      ensures Valid()
      ensures flushes == old(flushes) + [Flush(curFile, reps, startPos, endPos)]
      ensures marks == old(marks) + MarkPositions(text, startPos, endPos)
      ensures Outcome() == PatchOne(old(Outcome()), fs.writable, curFile, reps, modedel)
    {
      ReplaceFile(curFile, reps);
      MarkReplaced(text, startPos, endPos);
      flushes := flushes + [Flush(curFile, reps, startPos, endPos)];
    }

    /** What `replace_all` has done so far, given the flushes `done` of the blocks it has
        closed: the buffer is valid, and the flushes, the marks and the totals are those of
        `done`, added to the flushes `f0` and the totals `t0` of the start; the marks all
        lie before `startPos`, the start of the open block. */
    ghost predicate Scanning(text: string, done: seq<Flush>, startPos: nat,
                             f0: seq<Flush>, t0: Totals, w: set<string>)
      reads this, fs
    {
      Valid() && seed + |text| <= |base| && fs.writable == w
      && Recorded(text, t0, w, modedel, f0, done, startPos, flushes, marks, Outcome())
    }

    /** The header branch of `replace_all`'s loop: flush the open block with
        `apply_replace` before opening the block of the header at `next`. */
    method CloseOpenBlock(text: string, curFile: string, reps: seq<Entry>, startPos: nat,
                          endPos: nat, next: nat, ghost done: seq<Flush>, ghost f0: seq<Flush>,
                          ghost t0: Totals, ghost w: set<string>)
      returns (ghost done': seq<Flush>)
      requires Scanning(text, done, startPos, f0, t0, w)
      requires done == [] || startPos < next
      requires curFile != "" && |reps| > 0 ==> FindNewline(text, endPos) >= 0 && endPos < next
      modifies this`view, this`off, this`marks, this`replaced, this`files, this`flushes, fs`contents
      ensures done' == done + Pending(curFile, reps, startPos, endPos)
      ensures Scanning(text, done', next, f0, t0, w)
    {
      ghost var fl, mk, t := flushes, marks, Outcome();
      done' := done + Pending(curFile, reps, startPos, endPos);
      ApplyReplace(text, curFile, reps, startPos, endPos);
      RecordedPending(text, t0, w, modedel, f0, done, startPos, fl, mk, t,
                      curFile, reps, startPos, endPos, next, flushes, marks, Outcome());
    }

    /** One pass of `replace_all`'s loop, on the line at index `k`: a header closes the open
        block and opens its own, an entry after a header joins the open block, and any
        other line changes nothing. */
    method ScanLine(text: string, k: nat, line: Line, curFile: string, reps: seq<Entry>,
                    startPos: nat, endPos: nat, ghost h: int, ghost e: int, ghost done: seq<Flush>,
                    ghost f0: seq<Flush>, ghost t0: Totals, ghost w: set<string>)
      returns (curFile': string, reps': seq<Entry>, startPos': nat, endPos': nat,
               ghost h': int, ghost e': int, ghost done': seq<Flush>)
      requires k < |LinesFrom(text, 0)| && line == LinesFrom(text, 0)[k]
      requires Scanned(text, k, h, e, done, curFile, reps, startPos, endPos)
      requires Scanning(text, done, startPos, f0, t0, w)
      modifies this`view, this`off, this`marks, this`replaced, this`files, this`flushes, fs`contents
      ensures Scanned(text, k + 1, h', e', done', curFile', reps', startPos', endPos')
      ensures Scanning(text, done', startPos', f0, t0, w)
    {
      var header, entry := ReadLine(line.text, curFile);
      if header.Some? {
        HeaderStep(text, k, h, e, done, curFile, reps, startPos, endPos, header.value);
        done' := CloseOpenBlock(text, curFile, reps, startPos, endPos, line.start, done, f0, t0, w);
        curFile', reps', startPos', endPos' := header.value, [], line.start, endPos;
        h', e' := k, e;
      } else if entry.Some? {
        EntryStep(text, k, h, e, done, curFile, reps, startPos, endPos, entry.value);
        curFile', reps', startPos', endPos' := curFile, reps + [entry.value], startPos, line.start;
        h', e', done' := h, k, done;
      } else {
        OtherStep(text, k, h, e, done, curFile, reps, startPos, endPos);
        curFile', reps', startPos', endPos' := curFile, reps, startPos, endPos;
        h', e', done' := h, e, done;
      }
    }

    /** The loop of `replace_all(text)` over the lines of `text`. */
    method ScanLines(text: string, ghost f0: seq<Flush>, ghost t0: Totals, ghost w: set<string>)
      returns (curFile: string, reps: seq<Entry>, startPos: nat, endPos: nat,
               ghost h: int, ghost e: int, ghost done: seq<Flush>)
      requires Scanning(text, [], 0, f0, t0, w)
      modifies this`view, this`off, this`marks, this`replaced, this`files, this`flushes, fs`contents
      ensures Scanned(text, |LinesFrom(text, 0)|, h, e, done, curFile, reps, startPos, endPos)
      ensures Scanning(text, done, startPos, f0, t0, w)
    {
      startPos, endPos, curFile, reps := 0, 0, "", [];
      var lines := GetLines(text);
      h, e, done := -1, -1, [];
      for k := 0 to |lines|
        invariant Scanned(text, k, h, e, done, curFile, reps, startPos, endPos)
        invariant Scanning(text, done, startPos, f0, t0, w)
      {
        curFile, reps, startPos, endPos, h, e, done :=
          ScanLine(text, k, lines[k], curFile, reps, startPos, endPos, h, e, done, f0, t0, w);
      }
    }

    /** `replace_all(text)`: scan the lines of `text`, flushing each header's block when
        the next header or the end of the text is reached. */
    method ReplaceAll(text: string)
      requires Valid() && seed + |text| <= |base| && marks == []
      modifies this`view, this`off, this`marks, this`replaced, this`files, this`flushes, fs`contents
      ensures Valid()
      ensures flushes == old(flushes) + Blocks(Tag(LinesFrom(text, 0)))
      ensures marks == AllMarks(text, Blocks(Tag(LinesFrom(text, 0))))
      ensures Outcome() == PatchAll(old(Outcome()), fs.writable, Blocks(Tag(LinesFrom(text, 0))), modedel)
    {
      ghost var f0, t0, w := flushes, Outcome(), fs.writable;
      var curFile, reps, startPos, endPos, h, e, done := ScanLines(text, f0, t0, w);
      ScanDone(text, h, e, done, curFile, reps, startPos, endPos);
      ApplyReplace(text, curFile, reps, startPos, endPos);
      FlushedMore(text, t0, w, modedel, f0, done, Pending(curFile, reps, startPos, endPos),
                  flushes, marks, Outcome());
    }

    /** The start of `run`: the offset and both counters are reset and the delete flag is
        taken from the command's argument. The ghost record starts afresh from the buffer as
        it is. */
    method Reset(del: bool)
      modifies this`off, this`files, this`replaced, this`modedel, this`base, this`seed,
               this`marks, this`flushes
      ensures off == 0 && files == 0 && replaced == 0 && modedel == del
      ensures base == view && seed == 0 && marks == [] && flushes == [] && Valid()
    {
      off, files, replaced, modedel := 0, 0, 0, del;
      base, seed, marks, flushes := view, 0, [], [];
    }

    /** The tail of `run` once the text to scan is chosen: the offset and the ghost record
        are seeded to the text's buffer position `s` and `replace_all` runs over it. The
        buffer ends up with a `#` before the start of every line the flushes mark (text
        positions counted from `s`), and the files are patched by the flushes in order. */
    method ScanSpan(text: string, s: nat)
      requires Valid() && base == view && marks == [] && flushes == [] && seed == 0
      requires files == 0 && replaced == 0
      requires s + |text| <= |view| && text == view[s..s + |text|]
      modifies this`view, this`off, this`seed, this`marks, this`replaced, this`files,
               this`flushes, fs`contents
      ensures flushes == Blocks(Tag(LinesFrom(text, 0)))
      ensures Ordered(AllMarks(text, flushes), |old(view)| - s)
      ensures view == Marked(old(view), s, AllMarks(text, flushes))
      ensures off == s + |AllMarks(text, flushes)|
      ensures Outcome() == PatchAll(Totals(old(fs.contents), 0, 0), fs.writable, flushes, modedel)
    {
      off, seed := s, s;
      ghost var v0 := view;
      assert Valid() && base == v0;
      ReplaceAll(text);
      assert base == v0 && seed == s && Valid();
    }

    /** `run(edit, "all", modedel)`. Without a selection (`selStart == selEnd`) the text
        scanned is the buffer without its last character and the offset stays 0; with one
        selection it is the selected text and the offset is seeded to the selection's start. */
    method RunAll(del: bool, selStart: nat, selEnd: nat) returns (text: string, s: nat)
      requires selStart <= selEnd <= |view|
      modifies this, fs`contents
      ensures text == if selStart == selEnd then BufferText(old(view)) else old(view)[selStart..selEnd]
      ensures s == if selStart == selEnd then 0 else selStart
      ensures s + |text| <= |old(view)| && text == old(view)[s..s + |text|]
      ensures modedel == del && flushes == Blocks(Tag(LinesFrom(text, 0)))
      ensures Ordered(AllMarks(text, flushes), |old(view)| - s)
      ensures view == Marked(old(view), s, AllMarks(text, flushes))
      ensures off == s + |AllMarks(text, flushes)|
      ensures Outcome() == PatchAll(Totals(old(fs.contents), 0, 0), fs.writable, flushes, del)
    {
      Reset(del);
      if selStart == selEnd {
        text, s := BufferText(view), 0;
      } else {
        text, s := view[selStart..selEnd], selStart;
      }
      ScanSpan(text, s);
    }

    /** `run(edit, "line", modedel)` with the cursor at `pos`: find the governing header;
        when there is one and the cursor's line is an entry, patch that one entry into the
        header's file and mark that line alone (the offset stays 0). When the cursor's line
        is the buffer's last, the scanned text holds no newline after it and the marking
        follows the corrected walk `MarkLastLine`. */
    method RunLine(del: bool, pos: nat) returns (header: Option<(string, nat)>, entry: Option<Entry>)
      requires pos <= |view|
      modifies this, fs`contents
      ensures modedel == del
      ensures header.Some? ==>
        0 < pos && IsLineStart(old(view), header.value.1) && header.value.1 <= pos
        && MatchHeader(LineText(old(view), header.value.1)) == Some(header.value.0)
        && NoHeaderAfter(old(view), header.value.1, pos)
      ensures header.None? ==>
        pos == 0
        || NoHeaderAfter(old(view), -1, pos)
        || exists b :: 0 <= b <= pos && IsLineStart(old(view), b) && MarkedHeader(LineText(old(view), b))
                       && NoHeaderAfter(old(view), b, pos)
      ensures entry.Some? ==>
        header.Some? && MatchEntry(LineText(old(view), LineStart(old(view), pos))) == entry
      ensures header.Some? && entry.None? ==> MatchEntry(LineText(old(view), LineStart(old(view), pos))).None?
      ensures entry.None? ==>
        view == old(view) && off == 0 && flushes == [] && Outcome() == Totals(old(fs.contents), 0, 0)
      ensures entry.Some? ==>
        flushes == [Flush(header.value.0, [entry.value], LineStart(old(view), pos), LineEnd(old(view), pos))]
        && Outcome() == PatchOne(Totals(old(fs.contents), 0, 0), fs.writable, header.value.0,
                                 [entry.value], del)
      ensures entry.Some? && (LineEnd(old(view), pos) < |old(view)|
                              || Matches(BufferText(old(view))[LineStart(old(view), pos)..])) ==>
        view == Marked(old(view), 0, [LineStart(old(view), pos) as int]) && off == 1
      ensures entry.Some? && !(LineEnd(old(view), pos) < |old(view)|
                               || Matches(BufferText(old(view))[LineStart(old(view), pos)..])) ==>
        view == old(view) && off == 0
    {
      Reset(del);
      entry := None;
      header := FindLastFile(view, pos);
      if header.None? {
        return;
      }
      var a := LineStart(view, pos);
      var b := LineEnd(view, pos);
      LineEndCovers(view, pos);
      entry := MatchEntry(view[a..b]);
      if entry.None? {
        return;
      }
      MatchHeaderExact(LineText(view, header.value.1));
      if b + 1 < |view| {
        ApplyLine(header.value.0, entry.value, a, b);
      } else {
        ApplyLastLine(header.value.0, entry.value, a, b);
      }
    }

    /** The entry branch of `run(edit, "line", modedel)`: `apply_replace` over the buffer
        text with the one entry of the line from `a` to its newline `b`. */
    method ApplyLine(path: string, entry: Entry, a: nat, b: nat)
      requires Valid() && base == view && marks == [] && flushes == [] && seed == 0
      requires files == 0 && replaced == 0 && path != ""
      requires a <= b && b + 1 < |view| && b == LineEnd(view, a) && IsLineStart(view, a)
      requires MatchEntry(view[a..b]) == Some(entry)
      modifies this`view, this`off, this`marks, this`replaced, this`files, this`flushes, fs`contents
      ensures flushes == [Flush(path, [entry], a, b)]
      ensures view == Marked(old(view), 0, [a as int]) && off == 1
      ensures Outcome() == PatchOne(Totals(old(fs.contents), 0, 0), fs.writable, path, [entry], modedel)
    {
      var text := BufferText(view);
      LineInText(view, a, b);
      ghost var t := Outcome();
      ghost var v0 := view;
      assert text[a..b] == v0[a..b];
      OneLineMarked(text, a, b);
      ApplyReplace(text, path, [entry], a, b);
      PendingFlush(text, t, fs.writable, path, [entry], a, b, modedel);
      assert base == v0 && seed == 0 && Valid();
    }

    /** The entry branch of `run(edit, "line", modedel)` when the entry's line is the
        buffer's last: the file is patched as for any other line, and the corrected walk
        marks the line as it reads in the scanned text, which lacks the buffer's last
        character. A line that ends in the buffer's final newline reads in full there and
        is marked. */
    method ApplyLastLine(path: string, entry: Entry, a: nat, b: nat)
      requires Valid() && base == view && marks == [] && flushes == [] && seed == 0
      requires files == 0 && replaced == 0 && path != ""
      requires a <= b <= |view| && |view| <= b + 1 && b == LineEnd(view, a) && IsLineStart(view, a)
      requires MatchEntry(view[a..b]) == Some(entry)
      modifies this`view, this`off, this`marks, this`replaced, this`files, this`flushes, fs`contents
      ensures flushes == [Flush(path, [entry], a, b)]
      ensures Outcome() == PatchOne(Totals(old(fs.contents), 0, 0), fs.writable, path, [entry], modedel)
      ensures b < |old(view)| ==> Matches(BufferText(old(view))[a..])
      ensures Matches(BufferText(old(view))[a..]) ==> view == Marked(old(view), 0, [a as int]) && off == 1
      ensures !Matches(BufferText(old(view))[a..]) ==> view == old(view) && off == 0
    {
      var text := BufferText(view);
      LastEntryLineHasNoNewline(view, a);
      ghost var v0 := view;
      if b < |view| {
        assert text[a..] == v0[a..b];
      }
      ReplaceFile(path, [entry]);
      MarkLastLine(text, a);
      flushes := flushes + [Flush(path, [entry], a, b)];
      assert base == v0 && seed == 0 && Valid();
    }

    /** The corrected walk of `mark_replaced` over a line at text position `a` that no
        newline of `text` follows: the line runs to the end of the text, it is marked when
        it matches either grammar, and the walk stops there. */
    method MarkLastLine(text: string, a: nat)
      requires Valid() && seed + |text| <= |base| && a <= |text|
      requires forall c :: a <= c < |text| ==> text[c] != '\n'
      requires marks == [] || marks[|marks| - 1] < a
      modifies this`view, this`off, this`marks
      ensures Valid()
      ensures marks == old(marks) + (if Matches(text[a..]) then [a as int] else [])
      ensures off == old(off) + (if Matches(text[a..]) then 1 else 0)
    {
      var next := NextFixed(text, a - 1);
      assert next == |text| && text[a..next] == text[a..];
      var hit := Matches(text[a..next]);
      view, off, marks := MarkIf(hit, view, off, a, base, seed, marks);
    }

    /** `run(edit, "file", modedel)` with the cursor at `pos`: find the governing header;
        when there is one, scan its block, from the header's line to the first blank line
        (or the buffer's last character), with the offset seeded to the header's start. */
    method RunFile(del: bool, pos: nat) returns (header: Option<(string, nat)>, end: int, text: string)
      requires pos <= |view|
      modifies this, fs`contents
      ensures modedel == del
      ensures header.None? ==>
        view == old(view) && flushes == [] && Outcome() == Totals(old(fs.contents), 0, 0)
      ensures header.Some? ==>
        0 < pos && IsLineStart(old(view), header.value.1) && header.value.1 <= pos
        && MatchHeader(LineText(old(view), header.value.1)) == Some(header.value.0)
        && NoHeaderAfter(old(view), header.value.1, pos)
      ensures header.None? ==>
        pos == 0
        || NoHeaderAfter(old(view), -1, pos)
        || exists b :: 0 <= b <= pos && IsLineStart(old(view), b) && MarkedHeader(LineText(old(view), b))
                       && NoHeaderAfter(old(view), b, pos)
      ensures header.Some? ==>
        header.value.1 <= end < |old(view)| && text == old(view)[header.value.1..end]
      ensures header.Some? ==>
        (IsLineStart(old(view), end) && IsBlank(LineText(old(view), end))
         && NoBlankIn(old(view), header.value.1, end))
        || (end == |old(view)| - 1 && NoBlankIn(old(view), header.value.1, |old(view)|))
      ensures header.Some? ==>
        flushes == Blocks(Tag(LinesFrom(text, 0)))
        && Ordered(AllMarks(text, flushes), |old(view)| - header.value.1)
        && view == Marked(old(view), header.value.1, AllMarks(text, flushes))
        && off == header.value.1 + |AllMarks(text, flushes)|
        && Outcome() == PatchAll(Totals(old(fs.contents), 0, 0), fs.writable, flushes, del)
    {
      Reset(del);
      end, text := -1, "";
      header := FindLastFile(view, pos);
      if header.None? {
        return;
      }
      var h := header.value.1;
      HeaderInBuffer(view, h);
      end := FindFileEnd(view, h);
      LineStartOfStart(view, h);
      text := view[h..end];
      ScanSpan(text, h);
    }
  }

  /** A line that ends in a newline before the buffer's last character lies within the
      scanned text, and the search for its newline in that text finds its end. */
  lemma LineInText(v: string, a: nat, b: nat)
    requires a <= b && b + 1 < |v| && b == LineEnd(v, a)
    ensures b < |BufferText(v)| && FindNewline(BufferText(v), b) == b
  {
  }

  /** Marking the one line from `a` to its newline `b` marks its start exactly when it
      matches either grammar. */
  lemma OneLineMarked(text: string, a: nat, b: nat)
    requires a <= b < |text| && text[b] == '\n'
    requires forall c :: a <= c < b ==> text[c] != '\n'
    ensures MarkPositions(text, a, b) == if Matches(text[a..b]) then [a as int] else []
  {
    var l := Line(text[a..b], a);
    assert '\n' !in l.text by {
      forall k | 0 <= k < |l.text| ensures l.text[k] != '\n' {
        assert l.text[k] == text[a + k];
      }
    }
    CutFindsNewline(text, l);
    LinesFromStep(text, a);
    var rest := LinesFrom(text, b + 1);
    LinesFromAscending(text, b + 1);
    MarksInStep(l, rest, b, Matches);
    assert rest == [] || rest[0].start > b;
  }

  /** A header line is not empty, so it starts before the end of the buffer. */
  lemma HeaderInBuffer(v: string, h: nat)
    requires h <= |v| && MatchHeader(LineText(v, h)).Some?
    ensures h < |v|
  {
  }

  /** The corrected step of `mark_replaced`'s walk: the next newline after `pos`, or the
      end of the text when none follows, so that every pass moves forward. The corrected
      walk also stops once it reaches the end of the text, as `MarkLastLine` does: when the
      buffer has no final newline, `end` lies one past the scanned text. */
  function NextFixed(text: string, pos: int): (next: int)
    requires -1 <= pos < |text|
    ensures pos < next <= |text|
    ensures next < |text| ==> text[next] == '\n'
    ensures forall c :: pos < c < next ==> text[c] != '\n'
  {
    FindNewlineFirst(text, pos + 1);
    var nl := FindNewline(text, pos + 1);
    if nl < 0 then |text| else nl
  }

  /** An entry line that is the buffer's last has no newline after it in the scanned text,
      the buffer without its last character, and it starts inside that text. */
  lemma LastEntryLineHasNoNewline(v: string, a: nat)
    requires a <= |v| && IsLineStart(v, a) && |v| <= LineEnd(v, a) + 1
    requires MatchEntry(LineText(v, a)).Some?
    ensures a < |BufferText(v)|
    ensures forall c :: a <= c < |BufferText(v)| ==> BufferText(v)[c] != '\n'
  {
    MatchesNonEmpty(LineText(v, a));
  }

  /** `mark_replaced` as written moves to `text.find('\n', pos + 1)`, which is -1 when no
      newline follows. When no newline of `text` lies at or after `start`, every position
      the walk reaches from `start - 1` lies below `start`, hence below `end`: the loop test
      `pos < end` never fails and the walk never ends. */
  lemma MarkWalkAsWrittenNeverEnds(text: string, start: nat, end: nat, pos: int)
    requires start <= end && start <= |text|
    requires forall c :: start <= c < |text| ==> text[c] != '\n'
    requires -1 <= pos < start
    ensures pos < end
    ensures -1 <= FindNewline(text, pos + 1) < start
  {
  }

  /** The hang on a concrete buffer: `"ab:\n  1: x\n"` with the cursor on the entry line.
      The scanned text is `"ab:\n  1: x"`, the line runs from 4 to 10, and the walk as
      written goes 3, -1, 3, -1, ..., marking the entry (read as `"  1: "`) and the header
      on every round. */
  lemma RunLineLastEntryHangs()
    ensures var v := "ab:\n  1: x\n"; var t := BufferText(v);
      LineStart(v, 4) == 4 && LineEnd(v, 4) == 10 && MatchEntry(LineText(v, 4)).Some?
      && FindNewline(t, 4) == -1 && Matches(t[4..|t| - 1])
      && FindNewline(t, 0) == 3 && Matches(t[0..3])
      && FindNewline(t, 4) < LineEnd(v, 4) && FindNewline(t, 0) < LineEnd(v, 4)
  {
    var v := "ab:\n  1: x\n";
    var t := BufferText(v);
    assert t == "ab:\n  1: x";
    assert LineStart(v, 4) == 4 by {
      LineStartOfStart(v, 4);
    }
    assert LineEnd(v, 4) == 10 by {
      assert v[10] == '\n' && forall c :: 4 <= c < 10 ==> v[c] != '\n';
    }
    assert FindNewline(t, 4) == -1 by {
      assert forall c :: 4 <= c < |t| ==> t[c] != '\n';
    }
    assert FindNewline(t, 0) == 3 by {
      FindNewlineFirst(t, 0);
      assert t[3] == '\n' && forall c :: 0 <= c < 3 ==> t[c] != '\n';
    }
    assert LineText(v, 4) == "  1: x" && t[4..|t| - 1] == "  1: " && t[0..3] == "ab:";
    ConcreteEntries();
    ConcreteHeader();
  }

  /** The entry line of the concrete buffer, whole and without its last character, both
      match the entry regex. */
  lemma ConcreteEntries()
    ensures MatchEntry("  1: x").Some? && MatchEntry("  1: ").Some?
  {
    assert EntryShape("  1: x", 2, 3);
    MatchEntryExact("  1: x");
    assert EntryShape("  1: ", 2, 3);
    MatchEntryExact("  1: ");
  }

  /** The header line of the concrete buffer matches the header regex. */
  lemma ConcreteHeader()
    ensures MatchHeader("ab:").Some?
  {
    assert HeaderColonAt("ab:", 2);
    MatchHeaderExact("ab:");
  }
}
