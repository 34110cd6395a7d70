/**
 * Sequence combinators behind Python's list building: `extend` across a loop
 * is Flatten, and a loop that appends zero or one item per input is FlatMap.
 */
module Seqs {

  /** The concatenation of a sequence of sequences, in order. */
  function Flatten<T>(xss: seq<seq<T>>): seq<T>
  {
    if xss == [] then [] else xss[0] + Flatten(xss[1..])
  }

  /** What each element of `xs` contributes under `f`, concatenated in the order of `xs`. */
  function FlatMap<A, B>(xs: seq<A>, f: A -> seq<B>): seq<B>
  {
    if xs == [] then [] else f(xs[0]) + FlatMap(xs[1..], f)
  }

  lemma {:induction false} FlattenConcat<T>(xss: seq<seq<T>>, yss: seq<seq<T>>)
    ensures Flatten(xss + yss) == Flatten(xss) + Flatten(yss)
  {
    if xss == [] {
      assert xss + yss == yss;
    } else {
      assert (xss + yss)[1..] == xss[1..] + yss;
      FlattenConcat(xss[1..], yss);
    }
  }

  /** FlatMap distributes over concatenation: the result follows the input order. */
  lemma {:induction false} FlatMapConcat<A, B>(xs: seq<A>, ys: seq<A>, f: A -> seq<B>)
    ensures FlatMap(xs + ys, f) == FlatMap(xs, f) + FlatMap(ys, f)
  {
    if xs == [] {
      assert xs + ys == ys;
    } else {
      assert (xs + ys)[1..] == xs[1..] + ys;
      FlatMapConcat(xs[1..], ys, f);
    }
  }

  lemma FlatMapSingleton<A, B>(x: A, f: A -> seq<B>)
    ensures FlatMap([x], f) == f(x)
  {
    assert FlatMap([x], f) == f(x) + FlatMap([], f);
  }

  /** The step a loop takes when it handles one more element. */
  lemma FlatMapSnoc<A, B>(xs: seq<A>, x: A, f: A -> seq<B>)
    ensures FlatMap(xs + [x], f) == FlatMap(xs, f) + f(x)
  {
    FlatMapConcat(xs, [x], f);
    FlatMapSingleton(x, f);
  }

  /** An item is in the result exactly when some input element contributed it. */
  lemma {:induction false} FlatMapMember<A, B>(xs: seq<A>, f: A -> seq<B>, b: B)
    ensures b in FlatMap(xs, f) <==> exists i :: 0 <= i < |xs| && b in f(xs[i])
  {
    if xs != [] {
      FlatMapMember(xs[1..], f, b);
      if b in FlatMap(xs[1..], f) {
        var i :| 0 <= i < |xs[1..]| && b in f(xs[1..][i]);
        assert b in f(xs[i + 1]);
      }
      if exists i :: 0 <= i < |xs| && b in f(xs[i]) {
        var i :| 0 <= i < |xs| && b in f(xs[i]);
        if i > 0 {
          assert b in f(xs[1..][i - 1]);
        }
      }
    }
  }

  /** The result is empty exactly when no element contributed anything. */
  lemma {:induction false} FlatMapEmpty<A, B>(xs: seq<A>, f: A -> seq<B>)
    ensures FlatMap(xs, f) == [] <==> forall i :: 0 <= i < |xs| ==> f(xs[i]) == []
  {
    if xs != [] {
      FlatMapEmpty(xs[1..], f);
      if FlatMap(xs, f) == [] {
        forall i | 0 <= i < |xs| ensures f(xs[i]) == [] {
          if i > 0 { assert xs[i] == xs[1..][i - 1]; }
        }
      }
      if forall i :: 0 <= i < |xs| ==> f(xs[i]) == [] {
        forall i | 0 <= i < |xs[1..]| ensures f(xs[1..][i]) == [] {
          assert xs[1..][i] == xs[i + 1];
        }
      }
    }
  }

  /** When every element contributes at most one item, there are at most as many items as elements. */
  lemma {:induction false} FlatMapAtMostOne<A, B>(xs: seq<A>, f: A -> seq<B>)
    requires forall i :: 0 <= i < |xs| ==> |f(xs[i])| <= 1
    ensures |FlatMap(xs, f)| <= |xs|
  {
    if xs != [] {
      assert forall i :: 0 <= i < |xs[1..]| ==> xs[1..][i] == xs[i + 1];
      FlatMapAtMostOne(xs[1..], f);
    }
  }
}
