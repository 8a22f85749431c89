/** Generic facts about selecting and transforming the elements of a
    sequence, used for the record filter and for projections of the crawl
    trace. */
module Seqs {

  /** `f` applied to the elements of `xs` that satisfy `keep`, in order. */
  function FilterMap<T, U>(xs: seq<T>, keep: T -> bool, f: T -> U): (ys: seq<U>)
    ensures |ys| <= |xs|
  {
    if |xs| == 0 then []
    else
      var n := |xs| - 1;
      FilterMap(xs[..n], keep, f) + (if keep(xs[n]) then [f(xs[n])] else [])
  }

  /** The positions of the elements of `xs` that satisfy `keep`, in
      increasing order. */
  function Positions<T>(xs: seq<T>, keep: T -> bool): (ix: seq<nat>)
    ensures forall j :: 0 <= j < |ix| ==> ix[j] < |xs| && keep(xs[ix[j]])
    ensures forall j, k :: 0 <= j < k < |ix| ==> ix[j] < ix[k]
    ensures forall i :: 0 <= i < |xs| && keep(xs[i]) ==> i in ix
  {
    if |xs| == 0 then []
    else
      var n := |xs| - 1;
      var front := Positions(xs[..n], keep);
      assert forall j :: 0 <= j < |front| ==> xs[..n][front[j]] == xs[front[j]];
      assert forall i :: 0 <= i < n ==> xs[..n][i] == xs[i];
      front + (if keep(xs[n]) then [n] else [])
  }

  /** `FilterMap` yields one value per kept element, `f` of that element,
      in the order of the kept positions. */
  lemma {:induction false} FilterMapAtPositions<T, U>(xs: seq<T>, keep: T -> bool, f: T -> U)
    ensures |FilterMap(xs, keep, f)| == |Positions(xs, keep)|
    ensures forall j :: 0 <= j < |Positions(xs, keep)| ==>
      FilterMap(xs, keep, f)[j] == f(xs[Positions(xs, keep)[j]])
  {
    if |xs| > 0 {
      var n := |xs| - 1;
      FilterMapAtPositions(xs[..n], keep, f);
      var front := Positions(xs[..n], keep);
      var before := FilterMap(xs[..n], keep, f);
      var r := FilterMap(xs, keep, f);
      var pos := Positions(xs, keep);
      assert r == before + (if keep(xs[n]) then [f(xs[n])] else []);
      assert pos == front + (if keep(xs[n]) then [n] else []);
      forall j | 0 <= j < |pos| ensures r[j] == f(xs[pos[j]]) {
        if j < |front| {
          assert r[j] == before[j] && pos[j] == front[j];
          assert xs[..n][front[j]] == xs[front[j]];
        } else {
          assert pos[j] == n && r[j] == f(xs[n]);
        }
      }
    }
  }

  /** Selecting from a concatenation selects from each part. */
  lemma {:induction false} FilterMapAppend<T, U>(xs: seq<T>, ys: seq<T>, keep: T -> bool, f: T -> U)
    ensures FilterMap(xs + ys, keep, f) == FilterMap(xs, keep, f) + FilterMap(ys, keep, f)
  {
    if |ys| > 0 {
      var m := |ys| - 1;
      assert (xs + ys)[..|xs| + m] == xs + ys[..m];
      FilterMapAppend(xs, ys[..m], keep, f);
    } else {
      assert xs + ys == xs;
    }
  }

  /** Selecting from one element. */
  lemma FilterMapSingle<T, U>(x: T, keep: T -> bool, f: T -> U)
    ensures FilterMap([x], keep, f) == if keep(x) then [f(x)] else []
  {
    assert [x][..0] == [];
  }
}
