# EditableReplace: the find-results patch engine

This project models, in Dafny, the core of the EditableReplace plugin for Sublime Text: the
command that reads a "Find Results" buffer and writes the user's edits back to the files
it names. The buffer is made of path headers (`path:`) followed by indented entries
(`  N: content`). The command groups the entries under the most recent header. It rewrites
each named file, replacing (or, in delete mode, removing) the 1-based lines the entries
name. It then inserts a `#` before every header and entry line of each block it applied,
so that a second run skips them.

Modules, leaf first:

- `Options`: the optional value used for `None`, `False` and regex match objects.
- `Seqs`: small facts about sequences.
- `Lines`: the line scanner `get_lines` (a generator loop, modelled as the method
  `GetLines` proved equal to the function `LinesFrom`).
- `Grammar`: the header regex `^([^#]\S+):` and the entry regex `^\s+(\d+): (.*?)$`, written
  out as the regex engine runs them (greedy `\S+` with backtracking to the last colon, lazy
  group anchored by `$`), and the way `replace_all` classifies a line.
- `Patch`: `get_replace` and the line-by-line rewrite of `replace_line`.
- `Marks`: where the `#` marks land in a buffer that grows with every insertion.
- `Builder`: what `replace_all` computes, stated on its own. It gives the flushes (one per
  header that collected entries), the positions `mark_replaced` marks, and the file
  contents and counters the patcher produces.
- `FileSys`: the file system as a class holding a map from path to content and the set
  of paths that may be opened for writing.
- `Navigation`: `find_last_file`, `find_file_end` and `find_next_repl` over the buffer as
  a string, with `view.line(p)` modelled by `LineStart`/`LineEnd`.
- `Command`: the command object as a class, with the buffer, the insertion offset
  `off`, the two counters and the delete flag. It holds `replace_file`, `mark_replaced`,
  `apply_replace`, `replace_all` and the three branches of `run`. Ghost fields record the
  buffer before the run, the marked positions and the flushes performed. `Valid()` ties
  the buffer and `off` to them: the buffer is the original with a `#` before each marked
  position, and `off` is the scan's base position plus the number of marks.

Points of the code's behaviour worth stating outright:

- `replace_file` catches its own `IOError`s, so `apply_replace` marks the block even when
  the file could not be read or opened for writing.
- When two entries carry the same line number, the first one wins: `get_replace` returns
  on the first match.
- A line with exactly one leading space, such as ` 5: x`, matches both grammars. The
  header test runs first, so it becomes a header with path ` 5`
  (`Grammar.OneSpaceEntryIsHeader`).
- The entry's content group is lazy (`(.*?)$`); it captures the rest of a line that holds
  no newline.
- In `line` mode, when the cursor's entry line is the buffer's last line, `mark_replaced`
  never returns (see "## Findings"). The model's `run` follows the corrected walk there.

## Model

| member | source | states |
|---|---|---|
| Lines.FindNewline | EditableReplace.py:16 | `str.find('\n', from)`: -1, or an index at or after `from` holding a newline |
| Lines.FindNewlineFirst | EditableReplace.py:16 | the found newline is the first one at or after `from`; -1 means there is none |
| Lines.GetLines | EditableReplace.py:13-20 | the generator loop yields exactly the lines `LinesFrom(text, 0)` |
| Lines.LinesFromWellSplit | EditableReplace.py:13-20 | every yielded text holds no newline and is followed by one; the first start is 0 and each later start is one past the previous newline |
| Lines.OneLinePerNewline | EditableReplace.py:13-20 | one pair is yielded per newline of the input |
| Lines.LinesTileText | EditableReplace.py:13-20 | the yielded texts, each followed by `\n`, concatenate to a prefix of the input |
| Lines.NothingAfterLastLine | EditableReplace.py:15-18 | no newline follows that prefix: only an unterminated trailing fragment is dropped |
| Grammar.MatchHeaderExact | EditableReplace.py:7 | the header regex matches iff some colon at index >= 2 follows a non-`#` first character and a run without whitespace; group 1 runs up to the LAST such colon |
| Grammar.MatchEntryExact | EditableReplace.py:8 | the entry regex matches only lines of leading whitespace, digits and `": "`; on those it yields the number's value and the rest of the line |
| Grammar.LazyToEndExact | EditableReplace.py:8 | `(.*?)$` succeeds iff no newline comes before the last character, and captures the rest without a final newline |
| Grammar.EntryShapeForced | EditableReplace.py:8 | the leading whitespace and the digits of an entry are maximal runs, so the match is unique |
| Grammar.MarkedLineMatchesNeither | EditableReplace.py:7-8 | a line starting with `#` matches neither grammar and is classified as neither |
| Grammar.BlankMatchesNeither | EditableReplace.py:81 | a blank line matches neither grammar, so the `strip()` test only saves work |
| Grammar.ClassifySound | EditableReplace.py:81-92 | a line classified as a header matches the header regex with a path of length >= 2; an entry line matches the entry regex and not the header regex; any other line matches neither |
| Grammar.OneSpaceEntryIsHeader | EditableReplace.py:82-88 | ` N: x` matches the entry regex, yet is classified as a header with path ` N` |
| Patch.GetReplaceFirst | EditableReplace.py:22-26 | nothing is found iff no entry has the number; otherwise the content is that of the earliest entry with that number, even an empty one |
| Patch.GetReplaceFinds | EditableReplace.py:22-26 | an entry is found iff its number is among the entries' numbers |
| Patch.ReplaceLine | EditableReplace.py:28-37 | the loop writes `Rewrite(content, entries, del)`: per yielded line, the replacement, nothing, or the line itself, each with a newline |
| Patch.ReplaceModeLines | EditableReplace.py:28-37 | replace mode writes one line per input line; line i is the first entry numbered i, else the original |
| Patch.DeleteModeCount | EditableReplace.py:28-37 | delete mode writes as many lines as the input less the number of its line numbers that some entry names |
| Patch.CountInIsCardinality | EditableReplace.py:28-37 | that number is the count of distinct entry numbers within the file's lines |
| Patch.DeleteModeKeeps | EditableReplace.py:28-37 | delete mode keeps every unnamed line, in order, moved up by the named lines before it |
| Patch.OutOfRangeEntriesIgnored | EditableReplace.py:28-37 | entries numbered outside the file's lines change nothing, in either mode |
| Marks.OrderedElements | EditableReplace.py:65-66 | the step-by-step form of the marks is exactly strictly increasing positions within the buffer |
| Marks.MarkedSnoc | EditableReplace.py:65-66 | inserting at the position plus the number of marks already inserted extends the marks: why `off` grows by one per insertion |
| Marks.MarkedPlacement | EditableReplace.py:65-66 | the k-th `#` sits at its original position plus k, immediately before the original character there |
| Marks.MarkedKeeps | EditableReplace.py:65-66 | every original character survives, shifted right by the marks at or before it |
| Builder.BlocksHaveEntries | EditableReplace.py:69-72 | every flush carries a non-empty path and at least one entry |
| Builder.NoHeaderNoBlocks | EditableReplace.py:80-94 | lines without a header produce no flush |
| Builder.LeadingLinesIgnored | EditableReplace.py:88 | entries before the first header change no flush |
| Builder.BlocksAppend | EditableReplace.py:82-87 | a header closes the block before it: the flushes of two runs split at a header are concatenated |
| Builder.SingleBlock | EditableReplace.py:82-94 | a run with one header flushes that header's path, its entries in order, its line start and its last entry's start |
| Builder.OtherLineIgnored | EditableReplace.py:80-93 | a blank or other line, anywhere, neither ends a block nor changes any flush |
| Builder.MarkedTextNoFlush | EditableReplace.py:80-94 | a text whose every line is blank, starts with `#`, or matches neither grammar (as a run leaves a block, context lines included) yields no flush, hence no write and no mark |
| Builder.MarkPositionsExact | EditableReplace.py:58-67 | the marked positions ascend, lie in [start, end], are line starts, and a line starting at or before `end` is marked iff it matches either grammar |
| Builder.MarkedLineMatches | EditableReplace.py:58-67 | a position `mark_replaced` marks starts a newline-terminated line of the text that matches either grammar |
| Builder.AllMarksOnLines | EditableReplace.py:69-72 | the same holds for every mark of a run of flushes |
| Builder.MarksLand | EditableReplace.py:65-66 | the k-th `#` lands at its line's original position plus the scan's base plus k, immediately before the first character of that matching line |
| Builder.MarksFromLines | EditableReplace.py:59-67 | walking from newline to newline marks what testing the scanner's lines marks |
| Builder.PatchAllTotals | EditableReplace.py:39-56 | no file appears or disappears; the file counter grows by the flushes whose file could be read and opened, the entry counter by their entries |
| Builder.PatchAllKeeps | EditableReplace.py:39-56 | a file no flush names keeps its content |
| Builder.FlushAppend | EditableReplace.py:69-72 | flushing two runs in turn marks and patches what flushing both at once does |
| FileSys.FileSystem.Read | EditableReplace.py:42-44 | reading succeeds iff the file exists, and gives its content |
| FileSys.FileSystem.Write | EditableReplace.py:48 | opening for writing succeeds iff the path is writable; then the file holds exactly the new data, otherwise nothing changes |
| Command.EditableReplace.ReplaceFile | EditableReplace.py:39-56 | the file is rewritten and both counters advance (by the entries, and by one) only when the read and the write-open succeed |
| Command.EditableReplace.MarkReplaced | EditableReplace.py:58-67 | the buffer gains a `#` before each walked line that matches, `off` grows by the number of marks, and the buffer stays the original with a `#` before each marked position |
| Command.MarkWalk | EditableReplace.py:59-67 | the loop inserts at `pos + 1 + off` and advances `off`, keeping the buffer equal to the original with the marks placed at their original positions |
| Command.MarkIf | EditableReplace.py:64-66 | on a hit, `#` is spliced in at `p + off` and `off` grows by one; otherwise nothing changes |
| Command.EditableReplace.ApplyReplace | EditableReplace.py:69-72 | with a path and entries: one flush, the file patched and the block marked (even on an I/O failure); otherwise nothing |
| Command.ReadLine | EditableReplace.py:81-92 | a non-blank header line opens a block; an entry counts only once a header has been seen |
| Command.EditableReplace.ReplaceAll | EditableReplace.py:74-94 | the flushes performed are `Blocks` of the text's lines, the marks are theirs, and the files and counters are patched by them in order |
| Command.EditableReplace.Reset | EditableReplace.py:129-133 | the offset and both counters start at 0 and the delete flag is the argument |
| Command.EditableReplace.ScanSpan | EditableReplace.py:145-146 | with the offset seeded to the scanned text's start, each `#` lands before the original character it marks |
| Command.EditableReplace.RunAll | EditableReplace.py:139-146 | no selection: the buffer without its last character at offset 0; one selection: the selected text at offset = its start |
| Command.EditableReplace.RunLine | EditableReplace.py:147-166 | the header is the nearest one at or before the cursor with no marked header between (None exactly as `find_last_file` gives it); no header or no entry on the cursor's line: nothing changes and the offset stays 0; otherwise that single entry is patched into the header's file and only that line is marked, the buffer's last line through the corrected walk |
| Command.EditableReplace.ApplyLine | EditableReplace.py:158-160 | the entry on a line that ends before the buffer's last character is patched into the file as `PatchOne`, one flush is recorded, and that line alone is marked, at its start |
| Command.EditableReplace.ApplyLastLine | EditableReplace.py:158-160 | the entry on the buffer's last line is patched like any other; the line is marked once, as it reads in the scanned text, and always when it ends in the buffer's final newline |
| Command.EditableReplace.MarkLastLine | EditableReplace.py:58-67 | the corrected walk over a line with no newline after it marks the line once when it matches and stops |
| Command.NextFixed | EditableReplace.py:61 | the corrected step moves strictly forward, to the next newline or to the end of the text, passing no newline |
| Command.LastEntryLineHasNoNewline | EditableReplace.py:135 | an entry on the buffer's last line starts inside the scanned text and no newline of that text follows it |
| Command.MarkWalkAsWrittenNeverEnds | EditableReplace.py:59-67 | as written, with no newline at or after `start`, every position the walk reaches stays below `start`, so the loop test never fails |
| Command.RunLineLastEntryHangs | EditableReplace.py:135 | on `"ab:\n  1: x\n"` the walk as written goes 3, -1, 3, -1, ... and marks a matching line on every pass |
| Command.EditableReplace.RunFile | EditableReplace.py:167-172 | the header is the nearest one at or before the cursor (None exactly as `find_last_file` gives it); the block runs from it to the first blank line, or to the buffer size less one with no blank line after it, and is scanned with the offset seeded to the header's start |
| Command.BufferText | EditableReplace.py:135 | the scanned text is the buffer without its last character |
| Navigation.LineStart | EditableReplace.py:98 | `view.line(p).a` is the last line start at or before `p` |
| Navigation.LineEnd | EditableReplace.py:113 | `view.line(p).b` is the first newline at or after `p`, or the buffer's end |
| Navigation.LineEndCovers | EditableReplace.py:98-99 | the line holding `p` is the line that starts at its start; no line starts inside it |
| Navigation.FindLastFile | EditableReplace.py:96-108 | returns the nearest header at or before the cursor's line; None when `pos` is 0, when a marked header comes first, or when there is no header |
| Navigation.FindFileEnd | EditableReplace.py:110-117 | returns the start of the first blank line from the line holding `pos` on, or the buffer size less one when there is none |
| Navigation.FindNextRepl | EditableReplace.py:119-126 | returns `pos` itself when its line is an entry, else the start of the first later entry line, else the buffer size less one |

## Left out

- The Sublime API (`sublime.Region`, `view.sel`, `view.insert`, the `edit` token): the
  buffer is a string, `view.line` is `LineStart`/`LineEnd`, and an insertion is a string
  splice.
- `is_visible` and `EditableReplaceEventListener.on_query_context`: they only compare the
  view's names to enable the command.
- `print` diagnostics and the closing summary message: output only.
- Cursor repositioning in `run` (`sel.clear()`, `find_next_repl(line.b + 2)` and
  `nextfile_pos`): `FindNextRepl` is modelled on its own, but the new selection is not.
- Command.EditableReplace.RunAll: covers no selection or ONE selection. With several
  selections the source re-seeds `off` for each one; the shift of later selections by the
  marks of earlier ones belongs to the editor and is not modelled.
- Real file I/O: a file is a string in `FileSys.FileSystem`. A read fails when the path has
  no content; an open for writing fails when the path is not in the writable set. A
  failure part-way through writing, or a crash between truncation and the last write, is
  not modelled. The rewritten content is computed before the open for writing; nothing
  else observes the difference.
- Command.EditableReplace.MarkReplaced: requires a newline at or after `end` in the text.
  `replace_all` only collects newline-terminated lines, so every call from it meets this.
  The one call that does not, in `line` mode on the buffer's last line, does not return
  in the source (see "## Findings"); the model routes it to `MarkLastLine`.
- Exceptions other than `IOError` in `replace_file`, such as a decoding error while
  reading a file not in the default encoding: they escape `replace_file`, skip the
  marking of that block, and abort `replace_all`, so later blocks are neither patched nor
  marked. `FileSys.FileSystem.Read` only succeeds or fails quietly, so the model has no
  such third outcome.
- `\d` is ASCII digits only; Unicode digits and CRLF line endings are not modelled.
  `\s`/`\S`/`strip()` use the whitespace set of Python's `str.isspace`.
- The unused counter `i` of `replace_all`.

## Findings

| source | as written | input that shows it | evidently intended | confidence | as-written member | corrected member |
|---|---|---|---|---|---|---|
| EditableReplace.py:58-67 | `mark_replaced` moves `pos` to `text.find('\n', pos + 1)`. At a line with no newline after it, that is -1, which is below `end`, so the walk restarts at the top of the text and never ends, inserting `#` before matching lines on every pass. In `line` mode this happens whenever the cursor's entry line is the buffer's last, because the scanned text drops the buffer's last character. | `run(edit, "line")` on the buffer `"ab:\n  1: x\n"` with the cursor on the entry line | the walk stops at the end of the text, having marked that last line at most once | high; not executed | Command.MarkWalkAsWrittenNeverEnds, Command.RunLineLastEntryHangs | Command.NextFixed, Command.EditableReplace.MarkLastLine |
