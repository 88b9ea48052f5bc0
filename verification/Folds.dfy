/** Folding a function over a sequence and iterating a function, for any types. */
module Folds {
  import opened Prelude

  /** The state after absorbing the items of data from left to right. */
  function Fold<S, X>(absorb: (S, X) -> S, s: S, data: seq<X>): (r: S)
    decreases |data|
  {
    if data == [] then s else Fold(absorb, absorb(s, data[0]), data[1..])
  }

  lemma {:induction false} FoldAppend<S, X>(absorb: (S, X) -> S, s: S, x: seq<X>, y: seq<X>)
    ensures Fold(absorb, s, x + y) == Fold(absorb, Fold(absorb, s, x), y)
    decreases |x|
  {
    if x == [] {
      assert x + y == y;
    } else {
      assert (x + y)[1..] == x[1..] + y;
      FoldAppend(absorb, absorb(s, x[0]), x[1..], y);
    }
  }

  lemma FoldLast<S, X>(absorb: (S, X) -> S, s: S, x: seq<X>, last: X)
    ensures Fold(absorb, s, x + [last]) == absorb(Fold(absorb, s, x), last)
  {
    FoldAppend(absorb, s, x, [last]);
  }

  /** Absorbing an item never merges two states. */
  ghost predicate Reversible<S(!new), X(!new)>(absorb: (S, X) -> S) {
    forall a, b, x :: absorb(a, x) == absorb(b, x) ==> a == b
  }

  /** Two folds agree when their steps agree wherever the second one comes by. */
  lemma {:induction false} FoldsAgree<S, X>(f: (S, X) -> S, g: (S, X) -> S, s: S, x: seq<X>)
    requires forall k :: 0 <= k < |x| ==> f(Fold(g, s, x[..k]), x[k]) == g(Fold(g, s, x[..k]), x[k])
    ensures Fold(f, s, x) == Fold(g, s, x)
    decreases |x|
  {
    if x != [] {
      var n := |x| - 1;
      var y := x[..n];
      forall k | 0 <= k < |y|
        ensures f(Fold(g, s, y[..k]), y[k]) == g(Fold(g, s, y[..k]), y[k])
      {
        assert y[..k] == x[..k] && y[k] == x[k];
      }
      FoldsAgree(f, g, s, y);
      assert x == y + [x[n]];
      FoldLast(f, s, y, x[n]);
      FoldLast(g, s, y, x[n]);
    }
  }

  lemma {:induction false} FoldInjective<S(!new), X(!new)>(absorb: (S, X) -> S, a: S, b: S, data: seq<X>)
    requires Reversible(absorb)
    requires Fold(absorb, a, data) == Fold(absorb, b, data)
    ensures a == b
    decreases |data|
  {
    if data != [] {
      FoldInjective(absorb, absorb(a, data[0]), absorb(b, data[0]), data[1..]);
    }
  }

  /** What follows cannot hide a difference between two states. */
  lemma FoldMiddle<S(!new), X(!new)>(absorb: (S, X) -> S, s: S, prefix: seq<X>, x: seq<X>, y: seq<X>, suffix: seq<X>)
    requires Reversible(absorb)
    requires Fold(absorb, s, prefix + x + suffix) == Fold(absorb, s, prefix + y + suffix)
    ensures Fold(absorb, Fold(absorb, s, prefix), x) == Fold(absorb, Fold(absorb, s, prefix), y)
  {
    FoldAppend(absorb, s, prefix + x, suffix);
    FoldAppend(absorb, s, prefix + y, suffix);
    FoldAppend(absorb, s, prefix, x);
    FoldAppend(absorb, s, prefix, y);
    FoldInjective(absorb, Fold(absorb, s, prefix + x), Fold(absorb, s, prefix + y), suffix);
  }

  /** f applied n times. */
  function Iterate<T>(f: T -> T, n: nat, x: T): (r: T) {
    if n == 0 then x else Iterate(f, n - 1, f(x))
  }

  ghost predicate Distributes<T(!new)>(f: T -> T, op: (T, T) -> T) {
    forall a, b :: f(op(a, b)) == op(f(a), f(b))
  }

  lemma {:induction false} IterateDistributes<T(!new)>(f: T -> T, op: (T, T) -> T, n: nat, a: T, b: T)
    requires Distributes(f, op)
    ensures Iterate(f, n, op(a, b)) == op(Iterate(f, n, a), Iterate(f, n, b))
  {
    if n > 0 {
      IterateDistributes(f, op, n - 1, f(a), f(b));
    }
  }

  ghost predicate Injective<T(!new)>(f: T -> T) {
    forall a, b :: f(a) == f(b) ==> a == b
  }

  lemma {:induction false} IterateInjective<T(!new)>(f: T -> T, n: nat, a: T, b: T)
    requires Injective(f)
    requires Iterate(f, n, a) == Iterate(f, n, b)
    ensures a == b
  {
    if n > 0 {
      IterateInjective(f, n - 1, f(a), f(b));
    }
  }

  lemma IterateEight<T>(f: T -> T, x: T)
    ensures Iterate(f, 8, x) == f(f(f(f(f(f(f(f(x))))))))
  {
    var x2 := f(f(x));
    var x4 := f(f(x2));
    var x6 := f(f(x4));
    assert Iterate(f, 8, x) == Iterate(f, 6, x2);
    assert Iterate(f, 6, x2) == Iterate(f, 4, x4);
    assert Iterate(f, 4, x4) == Iterate(f, 2, x6);
  }

  // ---------------------------------------------------------------------------------
  // Transducers: what is emitted for an item depends on a state that follows the emitted items
  // ---------------------------------------------------------------------------------

  function Transduce<S, X, Y>(follow: (S, Y) -> S, emit: (S, X) -> seq<Y>, s: S, data: seq<X>): (r: seq<Y>)
    decreases |data|
  {
    if data == [] then []
    else
      var out := emit(s, data[0]);
      out + Transduce(follow, emit, Fold(follow, s, out), data[1..])
  }

  lemma {:induction false} TransduceAppend<S, X, Y>(
    follow: (S, Y) -> S, emit: (S, X) -> seq<Y>, s: S, x: seq<X>, y: seq<X>)
    ensures var first := Transduce(follow, emit, s, x);
            Transduce(follow, emit, s, x + y) ==
            first + Transduce(follow, emit, Fold(follow, s, first), y)
    decreases |x|
  {
    if x == [] {
      assert x + y == y;
    } else {
      var out := emit(s, x[0]);
      var s' := Fold(follow, s, out);
      var rest := Transduce(follow, emit, s', x[1..]);
      assert (x + y)[1..] == x[1..] + y;
      TransduceAppend(follow, emit, s', x[1..], y);
      FoldAppend(follow, s, out, rest);
      Regroup(out, rest, Transduce(follow, emit, Fold(follow, s', rest), y));
    }
  }

  lemma TransduceLast<S, X, Y>(follow: (S, Y) -> S, emit: (S, X) -> seq<Y>, s: S, x: seq<X>, last: X)
    ensures var first := Transduce(follow, emit, s, x);
            Transduce(follow, emit, s, x + [last]) == first + emit(Fold(follow, s, first), last)
  {
    TransduceAppend(follow, emit, s, x, [last]);
    TransduceOne(follow, emit, Fold(follow, s, Transduce(follow, emit, s, x)), last);
  }

  lemma TransduceOne<S, X, Y>(follow: (S, Y) -> S, emit: (S, X) -> seq<Y>, s: S, x: X)
    ensures Transduce(follow, emit, s, [x]) == emit(s, x)
  {
    assert emit(s, x) + [] == emit(s, x);
  }
}
