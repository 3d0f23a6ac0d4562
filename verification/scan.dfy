/**
 The first-match scan behind every `for … : if …: break` loop of the extractor and behind
 `re.search`: the smallest index of a range at which a condition holds.
 */
module Scan {
  import opened Wrappers

  /** The first index in `p..n` (both included) where `found` holds. */
  function FirstIndex(found: nat -> bool, p: nat, n: nat): (r: Option<nat>)
    requires p <= n
    ensures r.Some? ==> p <= r.value <= n && found(r.value)
    ensures r.Some? ==> forall i :: p <= i < r.value ==> !found(i)
    ensures r.None? ==> forall i :: p <= i <= n ==> !found(i)
    decreases n - p
  {
    if found(p) then Some(p) else if p == n then None else FirstIndex(found, p + 1, n)
  }

  /** The results of `f` on each element of `xs`, concatenated in order: a loop that `extend`s a list. */
  function FlatMap<T, U>(f: T -> seq<U>, xs: seq<T>): seq<U>
    decreases |xs|
  {
    if |xs| == 0 then [] else f(xs[0]) + FlatMap(f, xs[1..])
  }

  /** The loop over `a + b` is the loop over `a` followed by the loop over `b`. */
  lemma {:induction false} FlatMapAppend<T, U>(f: T -> seq<U>, a: seq<T>, b: seq<T>)
    ensures FlatMap(f, a + b) == FlatMap(f, a) + FlatMap(f, b)
    decreases |a|
  {
    if |a| == 0 {
      assert a + b == b;
    } else {
      FlatMapAppend(f, a[1..], b);
      assert (a + b)[1..] == a[1..] + b;
    }
  }

  /** Whatever holds of every element each call gives holds of every element of the result. */
  lemma {:induction false} FlatMapAll<T, U>(f: T -> seq<U>, xs: seq<T>, p: U -> bool)
    requires forall i, u :: 0 <= i < |xs| && u in f(xs[i]) ==> p(u)
    ensures forall u :: u in FlatMap(f, xs) ==> p(u)
    decreases |xs|
  {
    if |xs| > 0 {
      forall i, u | 0 <= i < |xs| - 1 && u in f(xs[1..][i])
        ensures p(u)
      {
        assert xs[1..][i] == xs[i + 1];
      }
      FlatMapAll(f, xs[1..], p);
    }
  }
}
