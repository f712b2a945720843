/** Order-preserving filtering and first-match search over sequences, as
    `Iterator::filter` and `Iterator::find` use them. */
module Seqs {
  import opened Wrappers

  /** Every position in `idx` holds an element that satisfies `p`. */
  predicate Sound<T>(idx: seq<nat>, s: seq<T>, p: T -> bool) {
    forall k :: 0 <= k < |idx| ==> idx[k] < |s| && p(s[idx[k]])
  }

  predicate Increasing(idx: seq<nat>) {
    forall k, l :: 0 <= k < l < |idx| ==> idx[k] < idx[l]
  }

  /** Every position of an element that satisfies `p` is in `idx`. */
  predicate Complete<T>(idx: seq<nat>, s: seq<T>, p: T -> bool) {
    forall i :: 0 <= i < |s| && p(s[i]) ==> i in idx
  }

  /** `idx` lists, in increasing order, exactly the positions in `s` of
      the elements that satisfy `p`. */
  predicate Positions<T>(idx: seq<nat>, s: seq<T>, p: T -> bool) {
    Sound(idx, s, p) && Increasing(idx) && Complete(idx, s, p)
  }

  /** The positions in `s` of the elements that satisfy `p`. */
  function KeptAt<T>(s: seq<T>, p: T -> bool): (idx: seq<nat>)
    ensures Positions(idx, s, p)
    decreases |s|
  {
    if |s| == 0 then []
    else
      var rest := KeptAt(s[1..], p);
      PositionsStep(s, p, rest);
      (if p(s[0]) then [0] else []) + Shift(rest)
  }

  /** The positions in the tail, moved one on, with the head's in front
      when it is kept, are the positions in the whole. */
  lemma PositionsStep<T>(s: seq<T>, p: T -> bool, rest: seq<nat>)
    requires |s| > 0 && Positions(rest, s[1..], p)
    ensures Positions((if p(s[0]) then [0] else []) + Shift(rest), s, p)
  {
    StepSound(s, p, rest);
    StepIncreasing(s, p, rest);
    StepComplete(s, p, rest);
  }

  lemma StepSound<T>(s: seq<T>, p: T -> bool, rest: seq<nat>)
    requires |s| > 0 && Sound(rest, s[1..], p)
    ensures Sound((if p(s[0]) then [0] else []) + Shift(rest), s, p)
  {
    var h := if p(s[0]) then 1 else 0;
    var idx := (if p(s[0]) then [0] else []) + Shift(rest);
    forall k | 0 <= k < |idx| ensures idx[k] < |s| && p(s[idx[k]]) {
      if k >= h {
        assert idx[k] == rest[k - h] + 1;
        assert p(s[1..][rest[k - h]]);
      }
    }
  }

  lemma StepIncreasing<T>(s: seq<T>, p: T -> bool, rest: seq<nat>)
    requires Increasing(rest)
    ensures Increasing((if |s| > 0 && p(s[0]) then [0] else []) + Shift(rest))
  {
    var h := if |s| > 0 && p(s[0]) then 1 else 0;
    var idx := (if |s| > 0 && p(s[0]) then [0] else []) + Shift(rest);
    forall k, l | 0 <= k < l < |idx| ensures idx[k] < idx[l] {
      assert idx[l] == rest[l - h] + 1;
      if k >= h {
        assert idx[k] == rest[k - h] + 1;
      }
    }
  }

  lemma StepComplete<T>(s: seq<T>, p: T -> bool, rest: seq<nat>)
    requires |s| > 0 && Complete(rest, s[1..], p)
    ensures Complete((if p(s[0]) then [0] else []) + Shift(rest), s, p)
  {
    var h := if p(s[0]) then 1 else 0;
    var idx := (if p(s[0]) then [0] else []) + Shift(rest);
    forall i | 0 <= i < |s| && p(s[i]) ensures i in idx {
      if i > 0 {
        assert p(s[1..][i - 1]);
        var k :| 0 <= k < |rest| && rest[k] == i - 1;
        assert idx[k + h] == i;
      } else {
        assert idx[0] == 0;
      }
    }
  }

  /** Every position one further on. */
  function Shift(idx: seq<nat>): (r: seq<nat>)
    ensures |r| == |idx| && forall k :: 0 <= k < |idx| ==> r[k] == idx[k] + 1
  {
    seq(|idx|, k requires 0 <= k < |idx| => idx[k] + 1)
  }

  /** The elements of `s` that satisfy `p`, in their order in `s`. */
  function Filter<T(!new)>(s: seq<T>, p: T -> bool): (r: seq<T>)
    ensures |r| <= |s|
    ensures forall i :: 0 <= i < |r| ==> p(r[i])
    ensures forall x :: x in r <==> x in s && p(x)
    decreases |s|
  {
    if |s| == 0 then []
    else
      var rest := Filter(s[1..], p);
      assert forall x :: x in s <==> x == s[0] || x in s[1..];
      if p(s[0]) then [s[0]] + rest else rest
  }

  /** The filter is the subsequence at the positions `KeptAt` lists: the
      kept elements in their order in `s`, each as often as it occurs
      there. */
  lemma {:induction false} FilterAt<T(!new)>(s: seq<T>, p: T -> bool)
    ensures |Filter(s, p)| == |KeptAt(s, p)|
    ensures forall k :: 0 <= k < |Filter(s, p)| ==> Filter(s, p)[k] == s[KeptAt(s, p)[k]]
    decreases |s|
  {
    if |s| > 0 {
      FilterAt(s[1..], p);
      FilterStep(s, p, Filter(s[1..], p));
    }
  }

  /** The index map of a filter carries over from the tail to the whole. */
  lemma FilterStep<T>(s: seq<T>, p: T -> bool, rest: seq<T>)
    requires |s| > 0 && |rest| == |KeptAt(s[1..], p)|
    requires forall k :: 0 <= k < |rest| ==> rest[k] == s[1..][KeptAt(s[1..], p)[k]]
    ensures var r := if p(s[0]) then [s[0]] + rest else rest;
      |r| == |KeptAt(s, p)| && forall k :: 0 <= k < |r| ==> r[k] == s[KeptAt(s, p)[k]]
  {
    var ti := KeptAt(s[1..], p);
    assert KeptAt(s, p) == (if p(s[0]) then [0] else []) + Shift(ti);
    ShiftedAt(s, p(s[0]), ti, rest);
  }

  /** Positions in the tail, moved one on, pick the same elements from the
      whole. */
  lemma ShiftedAt<T>(s: seq<T>, keepHead: bool, ti: seq<nat>, rest: seq<T>)
    requires |s| > 0 && |rest| == |ti|
    requires forall k :: 0 <= k < |ti| ==> ti[k] < |s| - 1 && rest[k] == s[1..][ti[k]]
    ensures var r := if keepHead then [s[0]] + rest else rest;
      var idx := (if keepHead then [0] else []) + Shift(ti);
      |r| == |idx| && forall k :: 0 <= k < |r| ==> idx[k] < |s| && r[k] == s[idx[k]]
  {
    var h := if keepHead then 1 else 0;
    var r := if keepHead then [s[0]] + rest else rest;
    var idx := (if keepHead then [0] else []) + Shift(ti);
    forall k | 0 <= k < |r| ensures idx[k] < |s| && r[k] == s[idx[k]] {
      if k >= h {
        assert r[k] == rest[k - h] && idx[k] == ti[k - h] + 1;
      }
    }
  }

  /** One step of the filter: the head is kept exactly when it satisfies `p`. */
  lemma FilterCons<T(!new)>(s: seq<T>, p: T -> bool)
    requires |s| > 0
    ensures Filter(s, p) == if p(s[0]) then [s[0]] + Filter(s[1..], p) else Filter(s[1..], p)
  {
  }

  /** Filtering distributes over concatenation: what is kept of `a` comes,
      in order, before what is kept of `b`. */
  lemma {:induction false} FilterAppend<T(!new)>(a: seq<T>, b: seq<T>, p: T -> bool)
    ensures Filter(a + b, p) == Filter(a, p) + Filter(b, p)
  {
    if |a| == 0 {
      assert a + b == b;
    } else {
      assert (a + b)[1..] == a[1..] + b;
      FilterAppend(a[1..], b, p);
    }
  }

  /** The index of the first element of `s` that satisfies `p`. */
  function FirstWhere<T>(s: seq<T>, p: T -> bool): (r: Option<nat>)
    ensures r.Some? ==> r.value < |s| && p(s[r.value])
    ensures r.Some? ==> forall j :: 0 <= j < r.value ==> !p(s[j])
    ensures r.None? <==> forall j :: 0 <= j < |s| ==> !p(s[j])
  {
    if |s| == 0 then None
    else if p(s[0]) then Some(0)
    else match FirstWhere(s[1..], p)
      case None => None
      case Some(i) => Some(i + 1)
  }
}
