/** Where the `#` marks land. `mark_replaced` inserts them one at a time into a buffer that
    grows with each insertion, compensating with the running offset; `Marked` describes the
    same result as marks placed at once before the ORIGINAL positions. A mark is recorded as
    a position of the scanned text, which starts at buffer position `s`. */
module Marks {

  /** Strictly increasing positions. */
  ghost predicate Increasing(ps: seq<int>)
  {
    forall i, j :: 0 <= i < j < |ps| ==> ps[i] < ps[j]
  }

  /** Every position lies in `0..bound`. */
  ghost predicate Within(ps: seq<int>, bound: int)
  {
    forall i :: 0 <= i < |ps| ==> 0 <= ps[i] <= bound
  }

  /** Strictly increasing positions, all in `0..bound`, stated one position at a time from
      the last: the form the marking proofs unfold step by step. */
  ghost predicate Ordered(ps: seq<int>, bound: int)
    decreases |ps|
  {
    ps == [] || (0 <= ps[|ps| - 1] <= bound && Ordered(ps[..|ps| - 1], ps[|ps| - 1] - 1))
  }

  /** `Ordered` is exactly `Increasing` together with `Within`. */
  lemma {:induction false} OrderedElements(ps: seq<int>, bound: int)
    ensures Ordered(ps, bound) <==> Increasing(ps) && Within(ps, bound)
    decreases |ps|
  {
    if ps != [] {
      var p := ps[|ps| - 1];
      var init := ps[..|ps| - 1];
      OrderedElements(init, p - 1);
      assert forall i :: 0 <= i < |init| ==> init[i] == ps[i];
      if Increasing(ps) && Within(ps, bound) {
        assert forall i :: 0 <= i < |init| ==> init[i] < p;
      }
    }
  }

  /** Every position of an `Ordered` sequence lies within its bound. */
  lemma {:induction false} OrderedWithin(ps: seq<int>, bound: int)
    requires Ordered(ps, bound)
    ensures Within(ps, bound)
    decreases |ps|
  {
    if ps != [] {
      var init := ps[..|ps| - 1];
      OrderedWithin(init, ps[|ps| - 1] - 1);
      assert forall i :: 0 <= i < |init| ==> init[i] == ps[i];
    }
  }

  /** `v` with a `#` inserted before buffer position `s + p` for each text position `p` of
      `ps`. */
  ghost function Marked(v: string, s: nat, ps: seq<int>): (r: string)
    requires s <= |v| && Ordered(ps, |v| - s)
    ensures |r| == |v| + |ps|
    decreases |ps|
  {
    if ps == [] then v
    else
      var p := ps[|ps| - 1];
      var init := ps[..|ps| - 1];
      assert Ordered(init, p - 1);
      Marked(v[..s + p], s, init) + "#" + v[s + p..]
  }

  /** Marks before text position `m` do not touch the buffer from `s + m` on. */
  lemma {:induction false} MarkedSplit(v: string, s: nat, ps: seq<int>, m: nat)
    requires Ordered(ps, m) && s + m <= |v|
    ensures Marked(v, s, ps) == Marked(v[..s + m], s, ps) + v[s + m..]
    decreases |ps|
  {
    if ps != [] {
      var p := ps[|ps| - 1];
      assert v[..s + m][..s + p] == v[..s + p];
      assert v[..s + m][s + p..] + v[s + m..] == v[s + p..];
    }
  }

  /** One more insertion, at buffer position `s + p` plus the number of marks already
      inserted, extends the marks: this is why `self.off` grows by one per mark. */
  lemma MarkedSnoc(v: string, s: nat, ps: seq<int>, p: int)
    requires s <= |v| && Ordered(ps, |v| - s) && 0 <= p <= |v| - s
    requires ps == [] || ps[|ps| - 1] < p
    ensures Ordered(ps + [p], |v| - s)
    ensures Marked(v, s, ps + [p])
         == Marked(v, s, ps)[..s + p + |ps|] + "#" + Marked(v, s, ps)[s + p + |ps|..]
  {
    var qs := ps + [p];
    assert qs[..|qs| - 1] == ps;
    assert Ordered(ps, p - 1);
    assert Marked(v, s, qs) == Marked(v[..s + p], s, ps) + "#" + v[s + p..];
    MarkedSplit(v, s, ps, p);
  }

  /** The k-th mark sits at buffer position `s` plus its text position plus k, immediately
      before the original character that was at that position. */
  lemma {:induction false} MarkedPlacement(v: string, s: nat, ps: seq<int>, k: nat)
    requires s <= |v| && Ordered(ps, |v| - s) && k < |ps|
    ensures 0 <= ps[k] && s + ps[k] + k < |Marked(v, s, ps)| && Marked(v, s, ps)[s + ps[k] + k] == '#'
    ensures 0 <= ps[k] && s + ps[k] < |v| ==>
      s + ps[k] + k + 1 < |Marked(v, s, ps)| && Marked(v, s, ps)[s + ps[k] + k + 1] == v[s + ps[k]]
    decreases |ps|
  {
    var n := |ps|;
    var p := ps[n - 1];
    var init := ps[..n - 1];
    var pre := Marked(v[..s + p], s, init);
    assert Marked(v, s, ps) == pre + "#" + v[s + p..];
    if k < n - 1 {
      assert Ordered(init, p - 1);
      OrderedWithin(init, p - 1);
      assert ps[k] == init[k] && ps[k] < p;
      MarkedPlacement(v[..s + p], s, init, k);
      assert s + ps[k] + k + 1 < |pre| by {
        assert k < n - 1;
      }
    }
  }

  /** Every buffer character survives, shifted right by the number of marks at or before
      its text position; the buffer before `s` is untouched, and nothing but `#` is added. */
  lemma {:induction false} MarkedKeeps(v: string, s: nat, ps: seq<int>, i: nat)
    requires s <= |v| && Ordered(ps, |v| - s) && i < |v|
    ensures i + Before(ps, i - s) < |Marked(v, s, ps)|
    ensures Marked(v, s, ps)[i + Before(ps, i - s)] == v[i]
    decreases |ps|
  {
    if ps != [] {
      var n := |ps|;
      var p := ps[n - 1];
      var init := ps[..n - 1];
      var pre := Marked(v[..s + p], s, init);
      assert Marked(v, s, ps) == pre + "#" + v[s + p..];
      BeforeSnoc(init, p, i - s);
      assert ps == init + [p];
      if i < s + p {
        MarkedKeeps(v[..s + p], s, init, i);
      } else {
        assert Ordered(init, p - 1);
        assert Ordered(init, i - s);
        BeforeAll(init, i - s);
      }
    }
  }

  /** How many positions of `ps` are at or before `i`. */
  function Before(ps: seq<int>, i: int): nat
  {
    if ps == [] then 0 else Before(ps[..|ps| - 1], i) + (if ps[|ps| - 1] <= i then 1 else 0)
  }

  lemma BeforeSnoc(ps: seq<int>, p: int, i: int)
    ensures Before(ps + [p], i) == Before(ps, i) + (if p <= i then 1 else 0)
  {
    assert (ps + [p])[..|ps|] == ps;
  }

  lemma {:induction false} BeforeAll(ps: seq<int>, i: int)
    requires Ordered(ps, i)
    ensures Before(ps, i) == |ps|
    decreases |ps|
  {
    if ps != [] {
      var init := ps[..|ps| - 1];
      assert Ordered(init, ps[|ps| - 1] - 1);
      assert Ordered(init, i);
      BeforeAll(init, i);
    }
  }
}
