/**
 * Sorting a sequence by a "comes before" comparator, and what the result
 * promises: it is a permutation of the input, it is ordered when the
 * comparator is a strict weak order, and it is the only ordered permutation
 * when the comparator separates every two distinct elements.
 */
module Sorting {

  /** No later element comes before an earlier one. */
  predicate SortedBy<T>(xs: seq<T>, before: (T, T) -> bool) {
    forall i, j :: 0 <= i < j < |xs| ==> !before(xs[j], xs[i])
  }

  /** Irreflexive, transitive, and with transitive incomparability: what a sort comparator must be. */
  ghost predicate StrictWeakOrder<T(!new)>(before: (T, T) -> bool) {
    && (forall a :: !before(a, a))
    && (forall a, b, c :: before(a, b) && before(b, c) ==> before(a, c))
    && (forall a, b, c :: !before(a, b) && !before(b, c) ==> !before(a, c))
  }

  /** Inserts `x` in front of the first element it does not come after. */
  function Insert<T(==)>(x: T, ys: seq<T>, before: (T, T) -> bool): (r: seq<T>)
    ensures multiset(r) == multiset{x} + multiset(ys)
    ensures |r| == |ys| + 1
  {
    if ys == [] || !before(ys[0], x) then [x] + ys
    else
      assert ys == [ys[0]] + ys[1..];
      [ys[0]] + Insert(x, ys[1..], before)
  }

  /** Insertion sort: the elements of `xs` rearranged by `before`. */
  function SortBy<T(==)>(xs: seq<T>, before: (T, T) -> bool): (r: seq<T>)
    ensures multiset(r) == multiset(xs)
    ensures |r| == |xs|
  {
    if xs == [] then []
    else
      assert xs == [xs[0]] + xs[1..];
      Insert(xs[0], SortBy(xs[1..], before), before)
  }

  lemma {:induction false} InsertSorted<T(!new)>(x: T, ys: seq<T>, before: (T, T) -> bool)
    requires StrictWeakOrder(before) && SortedBy(ys, before)
    ensures SortedBy(Insert(x, ys, before), before)
  {
    if ys == [] || !before(ys[0], x) {
      var r := [x] + ys;
      forall i, j | 0 <= i < j < |r| ensures !before(r[j], r[i]) {
        if i == 0 {
          if j > 1 {
            assert !before(ys[j - 1], ys[0]);
          }
        }
      }
    } else {
      InsertSorted(x, ys[1..], before);
      var rest := Insert(x, ys[1..], before);
      var r := [ys[0]] + rest;
      assert ys == [ys[0]] + ys[1..];
      forall i, j | 0 <= i < j < |r| ensures !before(r[j], r[i]) {
        if i == 0 {
          assert r[j] in multiset(rest);
          assert r[j] in multiset{x} + multiset(ys[1..]);
          if r[j] != x {
            var k :| 0 <= k < |ys[1..]| && ys[1..][k] == r[j];
            assert !before(ys[k + 1], ys[0]);
          }
        }
      }
    }
  }

  /** With a strict weak order the result is ordered. */
  lemma {:induction false} SortBySorted<T(!new)>(xs: seq<T>, before: (T, T) -> bool)
    requires StrictWeakOrder(before)
    ensures SortedBy(SortBy(xs, before), before)
  {
    if xs != [] {
      SortBySorted(xs[1..], before);
      InsertSorted(xs[0], SortBy(xs[1..], before), before);
    }
  }

  /** Every two elements of `xs` are equal or ordered one way or the other. */
  predicate Separates<T(==,!new)>(xs: seq<T>, before: (T, T) -> bool) {
    forall a, b :: a in xs && b in xs ==> a == b || before(a, b) || before(b, a)
  }

  /** The first element of an ordered sequence comes after none of the others. */
  lemma HeadFirst<T>(ys: seq<T>, a: T, before: (T, T) -> bool)
    requires SortedBy(ys, before) && |ys| > 0 && a in ys
    ensures a == ys[0] || !before(a, ys[0])
  {
    var j :| 0 <= j < |ys| && ys[j] == a;
  }

  lemma SortedTail<T>(xs: seq<T>, before: (T, T) -> bool)
    requires SortedBy(xs, before) && |xs| > 0
    ensures SortedBy(xs[1..], before)
  {
    forall i, j | 0 <= i < j < |xs| - 1 ensures !before(xs[1..][j], xs[1..][i]) {
      assert xs[1..][j] == xs[j + 1] && xs[1..][i] == xs[i + 1];
    }
  }

  /** Two ordered permutations of each other start alike when the comparator separates their elements. */
  lemma SameHead<T(!new)>(xs: seq<T>, ys: seq<T>, before: (T, T) -> bool)
    requires Separates(xs, before) && xs != []
    requires SortedBy(xs, before) && SortedBy(ys, before)
    requires multiset(xs) == multiset(ys)
    ensures ys != [] && xs[0] == ys[0]
  {
    var a := xs[0];
    assert a in multiset(xs) by { assert a in xs; }
    assert |ys| == |multiset(ys)| == |xs|;
    var b := ys[0];
    assert b in multiset(ys) by { assert b in ys; }
    HeadFirst(ys, a, before);
    HeadFirst(xs, b, before);
  }

  /** Two ordered permutations of each other are equal when the comparator separates their elements. */
  lemma {:induction false} SortedUnique<T(!new)>(xs: seq<T>, ys: seq<T>, before: (T, T) -> bool)
    requires Separates(xs, before)
    requires SortedBy(xs, before) && SortedBy(ys, before)
    requires multiset(xs) == multiset(ys)
    ensures xs == ys
    decreases |xs|
  {
    if xs == [] {
      assert |ys| == |multiset(ys)| == 0;
    } else {
      SameHead(xs, ys, before);
      RemoveOne(xs, ys, 0);
      assert ys[..0] + ys[1..] == ys[1..];
      SeparatesTail(xs, before);
      SortedTail(xs, before);
      SortedTail(ys, before);
      SortedUnique(xs[1..], ys[1..], before);
      assert xs == [xs[0]] + xs[1..] && ys == [ys[0]] + ys[1..];
    }
  }

  lemma SeparatesTail<T(!new)>(xs: seq<T>, before: (T, T) -> bool)
    requires Separates(xs, before) && xs != []
    ensures Separates(xs[1..], before)
  {
    forall u | u in xs[1..] ensures u in xs { }
  }

  function Reverse<T>(xs: seq<T>): (r: seq<T>)
    ensures |r| == |xs| && forall i :: 0 <= i < |xs| ==> r[i] == xs[|xs| - 1 - i]
  {
    if xs == [] then [] else Reverse(xs[1..]) + [xs[0]]
  }

  lemma {:induction false} ReverseMultiset<T>(xs: seq<T>)
    ensures multiset(Reverse(xs)) == multiset(xs)
  {
    if xs != [] {
      ReverseMultiset(xs[1..]);
      assert xs == [xs[0]] + xs[1..];
    }
  }

  /** The comparator with its arguments swapped. */
  function Flipped<T>(before: (T, T) -> bool): (T, T) -> bool {
    (a, b) => before(b, a)
  }

  /** Compares elements by comparing a key drawn from each. */
  function ByKey<T, K>(key: T -> K, before: (K, K) -> bool): (T, T) -> bool {
    (a, b) => before(key(a), key(b))
  }

  lemma ByKeyStrictWeakOrder<T(!new), K(!new)>(key: T -> K, before: (K, K) -> bool)
    requires StrictWeakOrder(before)
    ensures StrictWeakOrder(ByKey(key, before))
  {
    var keyed := ByKey(key, before);
    forall a ensures !keyed(a, a) {
      assert !before(key(a), key(a));
    }
    forall a, b, c | keyed(a, b) && keyed(b, c) ensures keyed(a, c) {
      assert before(key(a), key(b)) && before(key(b), key(c));
    }
    forall a, b, c | !keyed(a, b) && !keyed(b, c) ensures !keyed(a, c) {
      assert !before(key(a), key(b)) && !before(key(b), key(c));
    }
  }

  /** Ordered by a key comparator means the keys are ordered. */
  lemma SortedByKey<T, K>(xs: seq<T>, key: T -> K, before: (K, K) -> bool, keys: seq<K>)
    requires |keys| == |xs| && forall i :: 0 <= i < |xs| ==> keys[i] == key(xs[i])
    ensures SortedBy(xs, ByKey(key, before)) <==> SortedBy(keys, before)
  {
    if SortedBy(xs, ByKey(key, before)) {
      forall i, j | 0 <= i < j < |keys| ensures !before(keys[j], keys[i]) {
        assert !ByKey(key, before)(xs[j], xs[i]);
      }
    }
    if SortedBy(keys, before) {
      forall i, j | 0 <= i < j < |xs| ensures !ByKey(key, before)(xs[j], xs[i]) {
        assert !before(keys[j], keys[i]);
      }
    }
  }

  /**
   * Sorting with a comparator that is the other one with its arguments
   * swapped gives the reverse order, provided the comparator separates every
   * two distinct elements (no ties to keep in input order).
   */
  lemma SortFlippedIsReverse<T(!new)>(xs: seq<T>, before: (T, T) -> bool, after: (T, T) -> bool)
    requires StrictWeakOrder(before) && Separates(xs, before)
    requires forall a, b :: after(a, b) == before(b, a)
    ensures SortBy(xs, after) == Reverse(SortBy(xs, before))
  {
    var up := SortBy(xs, before);
    var down := SortBy(xs, after);
    SortBySorted(xs, before);
    assert StrictWeakOrder(after);
    SortBySorted(xs, after);
    ReverseMultiset(up);
    var rev := Reverse(up);
    forall i, j | 0 <= i < j < |rev| ensures !after(rev[j], rev[i]) {
      assert !before(up[|up| - 1 - i], up[|up| - 1 - j]);
    }
    forall a, b | a in down && b in down ensures a == b || after(a, b) || after(b, a) {
      assert a in multiset(down) && b in multiset(down);
      assert a in multiset(xs) && b in multiset(xs);
    }
    SortedUnique(down, rev, after);
  }

  function Map<T, U>(xs: seq<T>, f: T -> U): (r: seq<U>)
    ensures |r| == |xs| && forall i :: 0 <= i < |xs| ==> r[i] == f(xs[i])
  {
    seq(|xs|, i requires 0 <= i < |xs| => f(xs[i]))
  }

  lemma MapAppend<T, U>(xs: seq<T>, ys: seq<T>, f: T -> U)
    ensures Map(xs + ys, f) == Map(xs, f) + Map(ys, f)
  {
  }

  /** Mapping a rearrangement gives a rearrangement of the mapped sequence. */
  lemma {:induction false} MapPermutation<T, U>(xs: seq<T>, ys: seq<T>, f: T -> U)
    requires multiset(xs) == multiset(ys)
    ensures multiset(Map(xs, f)) == multiset(Map(ys, f))
    decreases |xs|
  {
    if xs == [] {
      assert |ys| == |multiset(ys)| == 0;
    } else {
      var a := xs[0];
      assert a in multiset(xs) by { assert xs[0] in xs; }
      var j := PositionIn(ys, a);
      RemoveOne(xs, ys, j);
      MapPermutation(xs[1..], ys[..j] + ys[j + 1..], f);
      MapPermutationStep(xs, ys, j, f);
    }
  }

  /** The step of `MapPermutation`: both sides are the image of the shared element and the rest. */
  lemma MapPermutationStep<T, U>(xs: seq<T>, ys: seq<T>, j: nat, f: T -> U)
    requires xs != [] && j < |ys| && ys[j] == xs[0]
    requires multiset(Map(xs[1..], f)) == multiset(Map(ys[..j] + ys[j + 1..], f))
    ensures multiset(Map(xs, f)) == multiset(Map(ys, f))
  {
    MapAroundOne(ys, j, f);
    MapCons(xs, f);
  }

  /** Mapping a non-empty sequence maps its head, then its tail. */
  lemma MapCons<T, U>(xs: seq<T>, f: T -> U)
    requires xs != []
    ensures multiset(Map(xs, f)) == multiset{f(xs[0])} + multiset(Map(xs[1..], f))
  {
    var tail := Map(xs[1..], f);
    assert Map(xs, f) == [f(xs[0])] + tail;
  }

  /** A position holding an element of the sequence. */
  lemma PositionIn<T>(ys: seq<T>, a: T) returns (j: nat)
    requires a in multiset(ys)
    ensures j < |ys| && ys[j] == a
  {
    assert a in ys;
    j :| 0 <= j < |ys| && ys[j] == a;
  }

  /** Taking the same element out of two rearrangements of each other leaves rearrangements. */
  lemma RemoveOne<T>(xs: seq<T>, ys: seq<T>, j: nat)
    requires multiset(xs) == multiset(ys) && xs != [] && j < |ys| && ys[j] == xs[0]
    ensures multiset(xs[1..]) == multiset(ys[..j] + ys[j + 1..])
  {
    var a := xs[0];
    var rest := ys[..j] + ys[j + 1..];
    assert xs == [a] + xs[1..];
    assert ys == ys[..j] + [a] + ys[j + 1..];
    assert multiset(ys) == multiset(ys[..j]) + multiset{a} + multiset(ys[j + 1..]);
    assert multiset(rest) == multiset(ys[..j]) + multiset(ys[j + 1..]);
    assert multiset(xs) == multiset{a} + multiset(xs[1..]);
    forall u
      ensures multiset(xs[1..])[u] == multiset(rest)[u]
    {
      assert multiset(xs)[u] == multiset{a}[u] + multiset(xs[1..])[u];
      assert multiset(ys)[u] == multiset{a}[u] + multiset(rest)[u];
    }
  }

  /** The mapped sequence holds the image of the element at `j` and the mapped rest. */
  lemma MapAroundOne<T, U>(ys: seq<T>, j: nat, f: T -> U)
    requires j < |ys|
    ensures multiset(Map(ys, f)) == multiset{f(ys[j])} + multiset(Map(ys[..j] + ys[j + 1..], f))
  {
    assert ys == ys[..j] + [ys[j]] + ys[j + 1..];
    MapAppend(ys[..j] + [ys[j]], ys[j + 1..], f);
    MapAppend(ys[..j], [ys[j]], f);
    MapAppend(ys[..j], ys[j + 1..], f);
  }
}
