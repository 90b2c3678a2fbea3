/** `Array.prototype.filter` and a `reduce` that concatenates, over Dafny sequences. */
module JsArrays {

  /** `xs.filter(keep)`: the elements `keep` accepts, in their order, repeats included. */
  function Filter<T(!new)>(xs: seq<T>, keep: T -> bool): (r: seq<T>)
    ensures |r| <= |xs|
    ensures forall x :: x in r <==> x in xs && keep(x)
  {
    if xs == [] then []
    else
      assert xs == [xs[0]] + xs[1..];
      (if keep(xs[0]) then [xs[0]] else []) + Filter(xs[1..], keep)
  }

  /** Every accepted element is kept as many times as it occurs, every other one never. */
  lemma {:induction false} FilterCount<T(!new)>(xs: seq<T>, keep: T -> bool)
    ensures forall x :: multiset(Filter(xs, keep))[x] == if keep(x) then multiset(xs)[x] else 0
  {
    if xs != [] {
      FilterCount(xs[1..], keep);
      assert xs == [xs[0]] + xs[1..];
      assert multiset(xs) == multiset{xs[0]} + multiset(xs[1..]);
    }
  }

  /** The filter keeps the order: filtering a concatenation concatenates the filtered halves. */
  lemma {:induction false} FilterAppend<T(!new)>(a: seq<T>, b: seq<T>, keep: T -> bool)
    ensures Filter(a + b, keep) == Filter(a, keep) + Filter(b, keep)
  {
    if a == [] {
      assert a + b == b;
    } else {
      assert (a + b)[0] == a[0];
      assert (a + b)[1..] == a[1..] + b;
      FilterAppend(a[1..], b, keep);
    }
  }

  /** `xs.reduce((acc, x) => [...acc, ...f(x)], [])`: the results of `f`, concatenated in order. */
  function FlatMap<T, U>(xs: seq<T>, f: T -> seq<U>): (r: seq<U>)
    ensures (forall x :: x in xs ==> |f(x)| >= 1) ==> |r| >= |xs|
  {
    if xs == [] then []
    else
      assert forall x :: x in xs[1..] ==> x in xs;
      f(xs[0]) + FlatMap(xs[1..], f)
  }

  /** Flattening one element gives that element's result. */
  lemma FlatMapOne<T, U>(x: T, f: T -> seq<U>)
    ensures FlatMap([x], f) == f(x)
  {
    assert [x][1..] == [];
    assert f(x) + [] == f(x);
  }

  /** Flattening a concatenation concatenates the flattened halves. */
  lemma {:induction false} FlatMapAppend<T, U>(a: seq<T>, b: seq<T>, f: T -> seq<U>)
    ensures FlatMap(a + b, f) == FlatMap(a, f) + FlatMap(b, f)
  {
    if a == [] {
      assert a + b == b;
    } else {
      assert (a + b)[0] == a[0];
      assert (a + b)[1..] == a[1..] + b;
      FlatMapAppend(a[1..], b, f);
    }
  }
}
