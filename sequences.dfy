/** Filtering and counting over a sequence, for any predicate. */
module Sequences {

  function Bump(b: bool): nat {
    if b then 1 else 0
  }

  /** How many elements of `xs` satisfy `p`. */
  function Count<T>(xs: seq<T>, p: T -> bool): (n: nat)
    ensures n <= |xs|
  {
    if |xs| == 0 then 0 else Count(xs[..|xs| - 1], p) + Bump(p(xs[|xs| - 1]))
  }

  /** `xs.filter(p)`: the elements that satisfy `p`, in their order. */
  function Filter<T>(xs: seq<T>, p: T -> bool): (ys: seq<T>)
    ensures |ys| == Count(xs, p)
    ensures forall j :: 0 <= j < |ys| ==> p(ys[j])
  {
    if |xs| == 0 then []
    else
      var last := xs[|xs| - 1];
      Filter(xs[..|xs| - 1], p) + (if p(last) then [last] else [])
  }

  /** Where each element `Filter` keeps stood in `xs`, in increasing order. */
  function FilterIndices<T>(xs: seq<T>, p: T -> bool): (ks: seq<nat>)
    ensures |ks| == |Filter(xs, p)|
    ensures forall j :: 0 <= j < |ks| ==> ks[j] < |xs| && xs[ks[j]] == Filter(xs, p)[j]
    ensures forall j, k :: 0 <= j < k < |ks| ==> ks[j] < ks[k]
  {
    if |xs| == 0 then []
    else
      var last := |xs| - 1;
      var init := xs[..last];
      var ks := FilterIndices(init, p);
      assert forall j :: 0 <= j < |ks| ==> xs[ks[j]] == init[ks[j]];
      ks + (if p(xs[last]) then [last] else [])
  }

  /** A position is among the kept positions exactly when its element satisfies `p`. */
  lemma {:induction false} FilterIndicesComplete<T>(xs: seq<T>, p: T -> bool, i: nat)
    requires i < |xs|
    ensures p(xs[i]) <==> i in FilterIndices(xs, p)
  {
    var last := |xs| - 1;
    var init := xs[..last];
    var ks := FilterIndices(init, p);
    assert FilterIndices(xs, p) == ks + (if p(xs[last]) then [last] else []);
    if i < last {
      FilterIndicesComplete(init, p, i);
      assert xs[i] == init[i];
    }
  }

  function Max(a: int, b: int): int {
    if a >= b then a else b
  }

  /** `Math.max` folded over `f` of each element, starting from 0. */
  function RunningMax<T>(xs: seq<T>, f: T -> int): int {
    if |xs| == 0 then 0 else Max(RunningMax(xs[..|xs| - 1], f), f(xs[|xs| - 1]))
  }

  /**
   * The running maximum is at least 0, at least `f` of every element, and is
   * 0 or `f` of some element.
   */
  lemma {:induction false} RunningMaxBounds<T>(xs: seq<T>, f: T -> int)
    ensures RunningMax(xs, f) >= 0
    ensures forall i :: 0 <= i < |xs| ==> f(xs[i]) <= RunningMax(xs, f)
    ensures RunningMax(xs, f) == 0 || exists i :: 0 <= i < |xs| && RunningMax(xs, f) == f(xs[i])
  {
    if |xs| > 0 {
      var last := |xs| - 1;
      var init := xs[..last];
      RunningMaxBounds(init, f);
      var m := RunningMax(xs, f);
      forall i | 0 <= i < |xs|
        ensures f(xs[i]) <= m
      {
        if i < last {
          assert xs[i] == init[i];
        }
      }
      if m != 0 && m != f(xs[last]) {
        var i :| 0 <= i < |init| && RunningMax(init, f) == f(init[i]);
        assert xs[i] == init[i];
      }
    }
  }
}
