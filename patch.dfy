/** The file patcher's pure part: `get_replace` and the line-by-line rewrite of
    `replace_line`. */
module Patch {
  import opened Options
  import opened Lines
  import opened Grammar
  import opened Seqs

  /** `get_replace(replaces, lineno)`: the content of the FIRST entry numbered `lineno`, or
      nothing. An empty content is still found, because `"" != False`. */
  function GetReplace(reps: seq<Entry>, lineno: nat): Option<string>
  {
    if reps == [] then None
    else if reps[0].lineno == lineno then Some(reps[0].content)
    else GetReplace(reps[1..], lineno)
  }

  /** What `get_replace` finds: nothing exactly when no entry has the number, and otherwise
      the content of the earliest entry that has it, so a later duplicate is never used. */
  lemma {:induction false} GetReplaceFirst(reps: seq<Entry>, lineno: nat)
    ensures GetReplace(reps, lineno).None? <==> forall i :: 0 <= i < |reps| ==> reps[i].lineno != lineno
    ensures GetReplace(reps, lineno).Some? ==>
      exists i :: 0 <= i < |reps| && reps[i] == Entry(lineno, GetReplace(reps, lineno).value)
                  && forall j :: 0 <= j < i ==> reps[j].lineno != lineno
    decreases |reps|
  {
    if reps != [] {
      if reps[0].lineno == lineno {
        assert reps[0] == Entry(lineno, reps[0].content);
      } else {
        GetReplaceFirst(reps[1..], lineno);
        var r := GetReplace(reps[1..], lineno);
        assert forall i :: 1 <= i < |reps| ==> reps[i] == reps[1..][i - 1];
        if r.Some? {
          var i :| 0 <= i < |reps[1..]| && reps[1..][i] == Entry(lineno, r.value)
                   && forall j :: 0 <= j < i ==> reps[1..][j].lineno != lineno;
          assert reps[i + 1] == Entry(lineno, r.value);
        }
      }
    }
  }

  /** The line numbers the entries name. */
  function Numbers(reps: seq<Entry>): set<int>
  {
    set e | e in reps :: e.lineno as int
  }

  /** What `replace_line` writes for file line `lineno` holding `line`: nothing for a found
      entry in delete mode, the entry's content in replace mode, and the line itself when
      no entry names it. */
  function Written(line: string, reps: seq<Entry>, del: bool, lineno: nat): seq<string>
  {
    match GetReplace(reps, lineno)
    case Some(r) => if del then [] else [r]
    case None => [line]
  }

  /** The lines `replace_line` writes for `lines`, the first of which is file line `first`. */
  function Rewritten(lines: seq<string>, reps: seq<Entry>, del: bool, first: nat): seq<string>
  {
    if lines == [] then []
    else Written(lines[0], reps, del, first) + Rewritten(lines[1..], reps, del, first + 1)
  }

  /** The new content of a file whose old content is `content`. A last line without a
      newline is not yielded by the scanner, so it is not written back. */
  function Rewrite(content: string, reps: seq<Entry>, del: bool): string
  {
    Join(Rewritten(Texts(LinesFrom(content, 0)), reps, del, 1))
  }

  lemma {:induction false} RewrittenSnoc(lines: seq<string>, x: string, reps: seq<Entry>, del: bool, first: nat)
    ensures Rewritten(lines + [x], reps, del, first)
         == Rewritten(lines, reps, del, first) + Written(x, reps, del, first + |lines|)
    decreases |lines|
  {
    if lines == [] {
      assert [x][1..] == [];
    } else {
      var w0 := Written(lines[0], reps, del, first);
      var rest := Rewritten(lines[1..], reps, del, first + 1);
      var wx := Written(x, reps, del, first + |lines|);
      TailSnoc(lines, x);
      RewrittenSnoc(lines[1..], x, reps, del, first + 1);
      AppendAssoc(w0, rest, wx);
    }
  }

  /** `replace_line(f, content, replaces)`: writes, for the i-th yielded line (1-based), the
      replacement, nothing, or the line itself, each followed by a newline. */
  method ReplaceLine(content: string, reps: seq<Entry>, del: bool) returns (written: string)
    ensures written == Rewrite(content, reps, del)
  {
    var lines := GetLines(content);
    ghost var texts := Texts(lines);
    written := "";
    var i := 1;
    var k := 0;
    while k < |lines|
      invariant 0 <= k <= |lines| && i == k + 1
      invariant written == Join(Rewritten(texts[..k], reps, del, 1))
    {
      var line := lines[k];
      var repl := GetReplace(reps, i);
      ghost var w := Written(line.text, reps, del, i);
      assert texts[..k + 1] == texts[..k] + [line.text];
      RewrittenSnoc(texts[..k], line.text, reps, del, 1);
      JoinAppend(Rewritten(texts[..k], reps, del, 1), w);
      if repl.Some? {
        if !del {
          JoinOne(repl.value);
          written := written + (repl.value + "\n");
        } else {
          assert Join(w) == "";
        }
      } else {
        JoinOne(line.text);
        written := written + (line.text + "\n");
      }
      i := i + 1;
      k := k + 1;
    }
    assert texts[..k] == texts;
  }

  /** Replace mode: one output line per input line; line i is the content of the first
      entry numbered i, or the original line when no entry names it. */
  lemma {:induction false} ReplaceModeLines(lines: seq<string>, reps: seq<Entry>, first: nat)
    ensures |Rewritten(lines, reps, false, first)| == |lines|
    ensures forall i :: 0 <= i < |lines| ==>
      Rewritten(lines, reps, false, first)[i]
        == match GetReplace(reps, first + i) case Some(r) => r case None => lines[i]
    decreases |lines|
  {
    if lines != [] {
      ReplaceModeLines(lines[1..], reps, first + 1);
      var rest := Rewritten(lines[1..], reps, false, first + 1);
      forall i | 1 <= i < |lines|
        ensures Rewritten(lines, reps, false, first)[i]
          == match GetReplace(reps, first + i) case Some(r) => r case None => lines[i]
      {
        assert Rewritten(lines, reps, false, first)[i] == rest[i - 1];
        assert lines[1..][i - 1] == lines[i];
      }
    }
  }

  /** How many of the integers `lo`, ..., `hi - 1` are in `nums`. */
  function CountIn(nums: set<int>, lo: int, hi: int): nat
    decreases hi - lo
  {
    if lo >= hi then 0 else (if lo in nums then 1 else 0) + CountIn(nums, lo + 1, hi)
  }

  lemma {:induction false} CountInIsCardinality(nums: set<int>, lo: int, hi: int)
    ensures CountIn(nums, lo, hi) == |set k | lo <= k < hi && k in nums|
    decreases hi - lo
  {
    if lo < hi {
      CountInIsCardinality(nums, lo + 1, hi);
      var s := set k | lo <= k < hi && k in nums;
      var s' := set k | lo + 1 <= k < hi && k in nums;
      if lo in nums {
        assert s == s' + {lo};
      } else {
        assert s == s';
      }
    } else {
      assert (set k | lo <= k < hi && k in nums) == {};
    }
  }

  lemma GetReplaceFinds(reps: seq<Entry>, lineno: nat)
    ensures GetReplace(reps, lineno).Some? <==> lineno as int in Numbers(reps)
  {
    GetReplaceFirst(reps, lineno);
    if lineno as int in Numbers(reps) {
      var e :| e in reps && e.lineno == lineno;
    }
  }

  /** Delete mode: the output has as many lines as the input less the number of its line
      numbers that some entry names (see CountInIsCardinality). */
  lemma {:induction false} DeleteModeCount(lines: seq<string>, reps: seq<Entry>, first: nat)
    ensures |Rewritten(lines, reps, true, first)|
         == |lines| - CountIn(Numbers(reps), first, first + |lines|)
    decreases |lines|
  {
    if lines != [] {
      DeleteModeCount(lines[1..], reps, first + 1);
      GetReplaceFinds(reps, first);
      CountInBound(Numbers(reps), first + 1, first + |lines|);
    }
  }

  /** Delete mode: a line no entry names is kept, moved up by the number of named lines
      before it; so the kept lines keep their order and nothing else is written. */
  lemma {:induction false} DeleteModeKeeps(lines: seq<string>, reps: seq<Entry>, first: nat, i: nat)
    requires i < |lines| && first + i !in Numbers(reps)
    ensures 0 <= i - CountIn(Numbers(reps), first, first + i) < |Rewritten(lines, reps, true, first)|
    ensures Rewritten(lines, reps, true, first)[i - CountIn(Numbers(reps), first, first + i)] == lines[i]
    decreases i
  {
    var nums := Numbers(reps);
    GetReplaceFinds(reps, first);
    var w := Written(lines[0], reps, true, first);
    var rest := Rewritten(lines[1..], reps, true, first + 1);
    assert Rewritten(lines, reps, true, first) == w + rest;
    var c0 := if first in nums then 1 else 0;
    assert |w| == 1 - c0;
    if i > 0 {
      DeleteModeKeeps(lines[1..], reps, first + 1, i - 1);
      assert lines[1..][i - 1] == lines[i];
      assert CountIn(nums, first, first + i) == c0 + CountIn(nums, first + 1, first + 1 + (i - 1));
    } else {
      assert w == [lines[0]];
    }
  }

  lemma {:induction false} CountInBound(nums: set<int>, lo: int, hi: int)
    ensures CountIn(nums, lo, hi) <= if lo <= hi then hi - lo else 0
    decreases hi - lo
  {
    if lo < hi {
      CountInBound(nums, lo + 1, hi);
    }
  }

  /** The entries whose numbers fall in `lo`, ..., `hi - 1`, in order. */
  function InRange(reps: seq<Entry>, lo: int, hi: int): seq<Entry>
  {
    if reps == [] then []
    else (if lo <= reps[0].lineno < hi then [reps[0]] else []) + InRange(reps[1..], lo, hi)
  }

  lemma {:induction false} GetReplaceInRange(reps: seq<Entry>, lo: int, hi: int, lineno: nat)
    requires lo <= lineno < hi
    ensures GetReplace(InRange(reps, lo, hi), lineno) == GetReplace(reps, lineno)
    decreases |reps|
  {
    if reps != [] {
      GetReplaceInRange(reps[1..], lo, hi, lineno);
      var tail := InRange(reps[1..], lo, hi);
      if lo <= reps[0].lineno < hi {
        assert InRange(reps, lo, hi) == [reps[0]] + tail;
        assert ([reps[0]] + tail)[1..] == tail;
      } else {
        assert InRange(reps, lo, hi) == tail;
      }
    }
  }

  /** Entries numbered outside the file's lines change nothing, in either mode: only the
      entries whose numbers fall in a range covering the lines matter. */
  lemma {:induction false} OutOfRangeEntriesIgnored(lines: seq<string>, reps: seq<Entry>, del: bool,
                                                    first: nat, lo: int, hi: int)
    requires lo <= first && first + |lines| <= hi
    ensures Rewritten(lines, reps, del, first) == Rewritten(lines, InRange(reps, lo, hi), del, first)
    decreases |lines|
  {
    if lines != [] {
      var inner := InRange(reps, lo, hi);
      GetReplaceInRange(reps, lo, hi, first);
      WrittenSame(lines[0], reps, inner, del, first);
      OutOfRangeEntriesIgnored(lines[1..], reps, del, first + 1, lo, hi);
      RewrittenCons(lines, reps, del, first);
      RewrittenCons(lines, inner, del, first);
    }
  }

  /** What is written for a line depends only on what `get_replace` finds for it. */
  lemma WrittenSame(line: string, r1: seq<Entry>, r2: seq<Entry>, del: bool, lineno: nat)
    requires GetReplace(r1, lineno) == GetReplace(r2, lineno)
    ensures Written(line, r1, del, lineno) == Written(line, r2, del, lineno)
  {
  }

  lemma RewrittenCons(lines: seq<string>, reps: seq<Entry>, del: bool, first: nat)
    requires lines != []
    ensures Rewritten(lines, reps, del, first)
         == Written(lines[0], reps, del, first) + Rewritten(lines[1..], reps, del, first + 1)
  {
  }
}
