/**
 Optional values and the "apply to each, keep what is defined" traversal that
 both halves of the measurement engine are built from: the matcher keeps the
 left detections that found a partner, and the estimator keeps the pairs whose
 disparity is large enough to triangulate.
 */
module Seqs {

  /** A value that may be absent; Python's `None` versus a real result. */
  datatype Option<+T> = None | Some(value: T)

  /** Applies `f` to every element of `xs`, in order, and keeps the defined results. */
  function FilterMap<T, U>(xs: seq<T>, f: T -> Option<U>): (ys: seq<U>)
    ensures |ys| <= |xs|
  {
    if |xs| == 0 then []
    else
      var rest := FilterMap(xs[1..], f);
      match f(xs[0])
      case Some(y) => [y] + rest
      case None => rest
  }

  /** Every kept result is the image of some element, and every defined image is kept. */
  lemma {:induction false} FilterMapMembers<T, U>(xs: seq<T>, f: T -> Option<U>)
    ensures forall y :: y in FilterMap(xs, f) ==> exists x :: x in xs && f(x) == Some(y)
    ensures forall x :: x in xs && f(x).Some? ==> f(x).value in FilterMap(xs, f)
  {
    if |xs| > 0 {
      FilterMapMembers(xs[1..], f);
      FilterMapUnfold(xs, f);
      assert forall x :: x in xs[1..] ==> x in xs;
      assert forall x :: x in xs ==> x == xs[0] || x in xs[1..];
    }
  }

  /** Strictly increasing sequence of indices. */
  predicate Increasing(ks: seq<nat>)
  {
    forall a, b :: 0 <= a < b < |ks| ==> ks[a] < ks[b]
  }

  /** The indices of `xs` whose image under `f` is defined, in increasing order:
      the witness that `FilterMap` is an order-preserving selection (see `KeptSelects`). */
  function Kept<T, U>(xs: seq<T>, f: T -> Option<U>): (ks: seq<nat>)
    ensures forall k :: 0 <= k < |ks| ==> ks[k] < |xs|
  {
    if |xs| == 0 then []
    else (if f(xs[0]).Some? then [0] else []) + Shift(Kept(xs[1..], f))
  }

  /** Adds one to every index. */
  function Shift(ks: seq<nat>): (r: seq<nat>)
    ensures |r| == |ks|
    ensures forall k :: 0 <= k < |ks| ==> r[k] == ks[k] + 1
  {
    seq(|ks|, k requires 0 <= k < |ks| => ks[k] + 1)
  }

  /** One step of `FilterMap`: the head's result, then the tail's. */
  lemma FilterMapUnfold<T, U>(xs: seq<T>, f: T -> Option<U>)
    requires |xs| > 0
    ensures FilterMap(xs, f) ==
              (if f(xs[0]).Some? then [f(xs[0]).value] else []) + FilterMap(xs[1..], f)
  {
  }

  /** One result is kept per kept index. */
  lemma {:induction false} KeptLength<T, U>(xs: seq<T>, f: T -> Option<U>)
    ensures |Kept(xs, f)| == |FilterMap(xs, f)|
  {
    if |xs| > 0 {
      KeptLength(xs[1..], f);
      FilterMapUnfold(xs, f);
    }
  }

  /** Kept indices come in input order. */
  lemma {:induction false} KeptIncreasing<T, U>(xs: seq<T>, f: T -> Option<U>)
    ensures Increasing(Kept(xs, f))
  {
    if |xs| > 0 {
      KeptIncreasing(xs[1..], f);
    }
  }

  /** An index is kept exactly when `f` is defined on the element there. */
  lemma {:induction false} KeptExactly<T, U>(xs: seq<T>, f: T -> Option<U>)
    ensures forall i :: 0 <= i < |xs| ==> (f(xs[i]).Some? <==> i in Kept(xs, f))
  {
    if |xs| > 0 {
      var tail := xs[1..];
      KeptExactly(tail, f);
      var rest := Kept(tail, f);
      var shifted := Shift(rest);
      var head: seq<nat> := if f(xs[0]).Some? then [0] else [];
      assert Kept(xs, f) == head + shifted;
      forall i | 0 < i < |xs|
        ensures f(xs[i]).Some? <==> i in shifted
      {
        assert xs[i] == tail[i - 1];
        if i - 1 in rest {
          var k :| 0 <= k < |rest| && rest[k] == i - 1;
          assert shifted[k] == i;
        }
        if i in shifted {
          var k :| 0 <= k < |shifted| && shifted[k] == i;
          assert rest[k] == i - 1;
        }
      }
    }
  }

  /** The k-th kept result is `f` applied to the element at the k-th kept index. */
  lemma {:induction false} KeptSelects<T, U>(xs: seq<T>, f: T -> Option<U>)
    ensures |Kept(xs, f)| == |FilterMap(xs, f)|
    ensures forall k :: 0 <= k < |Kept(xs, f)| ==>
              f(xs[Kept(xs, f)[k]]) == Some(FilterMap(xs, f)[k])
  {
    KeptLength(xs, f);
    if |xs| > 0 {
      var tail := xs[1..];
      KeptSelects(tail, f);
      FilterMapUnfold(xs, f);
      var rest := Kept(tail, f);
      var ys := FilterMap(tail, f);
      var sh := Shift(rest);
      forall k | 0 <= k < |sh|
        ensures f(xs[sh[k]]) == Some(ys[k])
      {
        assert xs[sh[k]] == tail[rest[k]];
      }
      if f(xs[0]).Some? {
        KeptSelectsCons(xs[0], f(xs[0]).value, xs, f, sh, ys);
      }
    }
  }

  /** Prepending index 0 and its result keeps kept indices and results aligned. */
  lemma KeptSelectsCons<T, U>(x: T, y: U, xs: seq<T>, f: T -> Option<U>, ks: seq<nat>, ys: seq<U>)
    requires |xs| > 0 && xs[0] == x && f(x) == Some(y)
    requires |ks| == |ys|
    requires forall k :: 0 <= k < |ks| ==> ks[k] < |xs| && f(xs[ks[k]]) == Some(ys[k])
    ensures forall k :: 0 <= k < |ks| + 1 ==> f(xs[([0] + ks)[k]]) == Some(([y] + ys)[k])
  {
    forall k | 0 <= k < |ks| + 1
      ensures f(xs[([0] + ks)[k]]) == Some(([y] + ys)[k])
    {
      if k > 0 {
        assert ([0] + ks)[k] == ks[k - 1];
        assert ([y] + ys)[k] == ys[k - 1];
      }
    }
  }

  /** `FilterMap` distributes over concatenation: each element is handled on its own. */
  lemma {:induction false} FilterMapAppend<T, U>(a: seq<T>, b: seq<T>, f: T -> Option<U>)
    ensures FilterMap(a + b, f) == FilterMap(a, f) + FilterMap(b, f)
  {
    if |a| == 0 {
      assert a + b == b;
    } else {
      assert (a + b)[1..] == a[1..] + b;
      FilterMapAppend(a[1..], b, f);
    }
  }

  /** Nothing is kept exactly when `f` is undefined everywhere. */
  lemma {:induction false} FilterMapEmpty<T, U>(xs: seq<T>, f: T -> Option<U>)
    ensures FilterMap(xs, f) == [] <==> forall i :: 0 <= i < |xs| ==> f(xs[i]).None?
  {
    if |xs| > 0 {
      FilterMapEmpty(xs[1..], f);
      assert forall i :: 1 <= i < |xs| ==> xs[i] == xs[1..][i - 1];
    }
  }

  /** Everything is kept exactly when `f` is defined everywhere. */
  lemma {:induction false} FilterMapTotal<T, U>(xs: seq<T>, f: T -> Option<U>)
    ensures |FilterMap(xs, f)| == |xs| <==> forall i :: 0 <= i < |xs| ==> f(xs[i]).Some?
  {
    if |xs| > 0 {
      FilterMapTotal(xs[1..], f);
      assert forall i :: 1 <= i < |xs| ==> xs[i] == xs[1..][i - 1];
    }
  }
}
