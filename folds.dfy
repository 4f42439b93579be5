/** Two folds over sequences that several parts of the bot share. */
module Folds {
  import opened Wrappers

  /** `f` applied to each element in turn, the results concatenated. */
  function FlatMap<T, U>(xs: seq<T>, f: T -> seq<U>): seq<U>
    decreases |xs|
  {
    if xs == [] then [] else FlatMap(xs[..|xs| - 1], f) + f(xs[|xs| - 1])
  }

  /** Mapping a concatenation maps each part in order. */
  lemma {:induction false} FlatMapAppend<T, U>(xs: seq<T>, ys: seq<T>, f: T -> seq<U>)
    ensures FlatMap(xs + ys, f) == FlatMap(xs, f) + FlatMap(ys, f)
    decreases |ys|
  {
    if ys == [] {
      assert xs + ys == xs;
    } else {
      var init := ys[..|ys| - 1];
      var tail := f(ys[|ys| - 1]);
      assert (xs + ys)[..|xs + ys| - 1] == xs + init;
      assert (xs + ys)[|xs + ys| - 1] == ys[|ys| - 1];
      FlatMapAppend(xs, init, f);
      var a, b := FlatMap(xs, f), FlatMap(init, f);
      assert (a + b) + tail == a + (b + tail);
    }
  }

  /** The last `Some` that `f` gives over the elements, if any. */
  function LastSome<T, U>(xs: seq<T>, f: T -> Option<U>): Option<U>
    decreases |xs|
  {
    if xs == [] then None
    else
      var last := f(xs[|xs| - 1]);
      if last.Some? then last else LastSome(xs[..|xs| - 1], f)
  }

  /** There is a result exactly when some element gives one, and it is the
      last such element's. */
  lemma {:induction false} LastSomeSpec<T, U>(xs: seq<T>, f: T -> Option<U>)
    ensures LastSome(xs, f).None? <==> forall k | 0 <= k < |xs| :: f(xs[k]).None?
    ensures forall k | 0 <= k < |xs| && f(xs[k]).Some?
      && (forall j | k < j < |xs| :: f(xs[j]).None?) :: LastSome(xs, f) == f(xs[k])
    decreases |xs|
  {
    if xs != [] {
      var last := |xs| - 1;
      if f(xs[last]).None? {
        var init := xs[..last];
        LastSomeSpec(init, f);
        assert forall k | 0 <= k < last :: xs[k] == init[k];
      }
    }
  }
}
