/** Order-preserving sequence helpers used where the source goes through a `Set` or a `Dictionary`. */
module Sequences {

  predicate NoDuplicates<T(==)>(xs: seq<T>) {
    forall i, j :: 0 <= i < j < |xs| ==> xs[i] != xs[j]
  }

  /** The first occurrence of every element, in order of first occurrence. */
  function Distinct<T(==,!new)>(xs: seq<T>): (r: seq<T>)
    ensures forall x :: x in r <==> x in xs
    ensures NoDuplicates(r)
    ensures |r| <= |xs|
  {
    if xs == [] then []
    else
      var init := Distinct(xs[..|xs| - 1]);
      var last := xs[|xs| - 1];
      assert xs == xs[..|xs| - 1] + [last];
      if last in init then init else init + [last]
  }

  lemma {:induction false} DistinctOfDistinct<T(!new)>(xs: seq<T>)
    requires NoDuplicates(xs)
    ensures Distinct(xs) == xs
  {
    if xs != [] {
      var init := xs[..|xs| - 1];
      DistinctOfDistinct(init);
      assert xs[|xs| - 1] !in init;
      assert init + [xs[|xs| - 1]] == xs;
    }
  }

  /** The elements of `xs` that occur in `ys`, in the order of `xs`. */
  function Keep<T(==,!new)>(xs: seq<T>, ys: seq<T>): (r: seq<T>)
    ensures forall x :: x in r <==> x in xs && x in ys
    ensures |r| <= |xs|
  {
    if xs == [] then []
    else (if xs[0] in ys then [xs[0]] else []) + Keep(xs[1..], ys)
  }

  /** The elements of `xs` that do not occur in `ys`, in the order of `xs`. */
  function Drop<T(==,!new)>(xs: seq<T>, ys: seq<T>): (r: seq<T>)
    ensures forall x :: x in r <==> x in xs && x !in ys
    ensures |r| <= |xs|
  {
    if xs == [] then []
    else (if xs[0] in ys then [] else [xs[0]]) + Drop(xs[1..], ys)
  }

  lemma {:induction false} KeepAll<T(!new)>(xs: seq<T>, ys: seq<T>)
    requires forall x :: x in xs ==> x in ys
    ensures Keep(xs, ys) == xs
  {
    if xs != [] {
      KeepAll(xs[1..], ys);
    }
  }

  lemma {:induction false} DropAll<T(!new)>(xs: seq<T>, ys: seq<T>)
    requires forall x :: x in xs ==> x in ys
    ensures Drop(xs, ys) == []
  {
    if xs != [] {
      DropAll(xs[1..], ys);
    }
  }

  /** A non-empty suffix is its first element followed by the rest. */
  lemma SuffixCons<T>(xs: seq<T>, i: nat)
    requires i < |xs|
    ensures xs[i..] == [xs[i]] + xs[i + 1..]
  {
  }

  /** Dropping the first element of a concatenation drops it from the left part. */
  lemma TailOfAppend<T>(a: seq<T>, b: seq<T>)
    requires a != []
    ensures (a + b)[0] == a[0] && (a + b)[1..] == a[1..] + b
  {
  }
}
