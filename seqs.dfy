/** Small facts about sequences, stated once for any element type. */
module Seqs {

  /** A run of a sequence grows by its next element. */
  lemma SliceSnoc<T>(s: seq<T>, i: nat, j: nat)
    requires i <= j < |s|
    ensures s[i..j + 1] == s[i..j] + [s[j]]
  {
  }

  /** Dropping the head commutes with appending at the end. */
  lemma TailSnoc<T>(s: seq<T>, x: T)
    requires s != []
    ensures (s + [x])[0] == s[0] && (s + [x])[1..] == s[1..] + [x]
  {
  }

  /** A sequence `t` made of the run of `s` from `i` up to `j`, the element at `j` and a run
      `r` of `s` that starts right after `j`, is itself the run of `s` from `i`. */
  lemma SliceAround<T>(s: seq<T>, i: nat, j: nat, r: seq<T>, t: seq<T>)
    requires i <= j < |s| && j + 1 + |r| <= |s| && s[j + 1..j + 1 + |r|] == r
    requires t == s[i..j] + [s[j]] + r
    ensures i + |t| <= |s| && s[i..i + |t|] == t
  {
    assert s[i..j + 1 + |r|] == s[i..j] + [s[j]] + s[j + 1..j + 1 + |r|];
  }

  lemma AppendAssoc<T>(a: seq<T>, b: seq<T>, c: seq<T>)
    ensures a + (b + c) == (a + b) + c
  {
  }
}
