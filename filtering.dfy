/**
 * The positions of a sequence at which a test holds. Both the row filter and
 * the file filter keep one element per passing position, in order; their
 * index lemmas are instances of the one proved here.
 */
module Filtering {

  /** The indices i of xs with p(xs[i]), in increasing order. */
  function Positions<T>(xs: seq<T>, p: T -> bool): (q: seq<nat>)
    ensures |q| <= |xs|
  {
    if xs == [] then []
    else
      var n := |xs| - 1;
      Positions(xs[..n], p) + (if p(xs[n]) then [n] else [])
  }

  /** Exactly the passing indices are listed, each once, in increasing order. */
  lemma {:induction false} PositionsSpec<T>(xs: seq<T>, p: T -> bool)
    ensures forall k :: 0 <= k < |Positions(xs, p)| ==>
      Positions(xs, p)[k] < |xs| && p(xs[Positions(xs, p)[k]])
    ensures forall k, l :: 0 <= k < l < |Positions(xs, p)| ==>
      Positions(xs, p)[k] < Positions(xs, p)[l]
    ensures forall i :: 0 <= i < |xs| && p(xs[i]) ==> i in Positions(xs, p)
  {
    if xs != [] {
      var n := |xs| - 1;
      var front := xs[..n];
      PositionsSpec(front, p);
      var q := Positions(front, p);
      var r := Positions(xs, p);
      assert r == q + (if p(xs[n]) then [n] else []);
      forall k | 0 <= k < |r| ensures r[k] < |xs| && p(xs[r[k]]) {
        if k < |q| {
          assert xs[q[k]] == front[q[k]];
        }
      }
      forall i | 0 <= i < |xs| && p(xs[i]) ensures i in r {
        if i < n {
          assert xs[i] == front[i];
        }
      }
    }
  }
}
