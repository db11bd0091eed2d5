/**
 * Edit scripts between two sequences and the offset walk that pairs their
 * elements.
 *
 * The script itself (Swift's `CollectionDifference`, whose algorithm is not
 * part of this model) is an input: a set of removed offsets into the old
 * sequence and a set of inserted offsets into the new one. A script is valid
 * when its offsets are in range and the old elements it keeps are, in order,
 * exactly the new elements it keeps.
 */
module EditScripts {

  datatype EditScript = EditScript(removals: set<int>, insertions: set<int>)

  const EmptyScript: EditScript := EditScript({}, {})

  /** The elements of `xs` from offset `from` on whose offsets are not in `drop`, in order. */
  function Kept<T>(xs: seq<T>, drop: set<int>, from: nat): seq<T>
    decreases |xs| - from
  {
    if from >= |xs| then []
    else (if from in drop then [] else [xs[from]]) + Kept(xs, drop, from + 1)
  }

  predicate ValidScript<T(==)>(s: EditScript, olds: seq<T>, news: seq<T>) {
    && (forall r :: r in s.removals ==> 0 <= r < |olds|)
    && (forall i :: i in s.insertions ==> 0 <= i < |news|)
    && Kept(olds, s.removals, 0) == Kept(news, s.insertions, 0)
  }

  /** The walk's state: both cursors in range and the kept elements ahead of them equal. */
  predicate Synced<T(==)>(s: EditScript, olds: seq<T>, news: seq<T>, o: nat, n: nat) {
    && ValidScript(s, olds, news)
    && o <= |olds| && n <= |news|
    && Kept(olds, s.removals, o) == Kept(news, s.insertions, n)
  }

  lemma {:induction false} KeptNothing<T>(xs: seq<T>)
    ensures Kept(xs, {}, 0) == xs
  {
    KeptNothingFrom(xs, 0);
  }

  lemma {:induction false} KeptNothingFrom<T>(xs: seq<T>, from: nat)
    requires from <= |xs|
    ensures Kept(xs, {}, from) == xs[from..]
    decreases |xs| - from
  {
    if from < |xs| {
      KeptNothingFrom(xs, from + 1);
    }
  }

  /** The empty script is valid exactly between equal sequences. */
  lemma EmptyScriptValid<T>(olds: seq<T>, news: seq<T>)
    ensures ValidScript(EmptyScript, olds, news) <==> olds == news
  {
    KeptNothing(olds);
    KeptNothing(news);
  }

  /**
   * What one step of the walk may rely on. A position that is neither removed
   * nor inserted exists on both sides and holds equal elements; a removed or
   * inserted position is in range; and after advancing the walk is still
   * synchronised.
   */
  lemma StepFacts<T>(s: EditScript, olds: seq<T>, news: seq<T>, o: nat, n: nat)
    requires Synced(s, olds, news, o, n)
    requires o < |olds| || n < |news|
    ensures o in s.removals ==> o < |olds|
    ensures n in s.insertions ==> n < |news|
    ensures o !in s.removals && n !in s.insertions ==>
              o < |olds| && n < |news| && olds[o] == news[n] && Synced(s, olds, news, o + 1, n + 1)
    ensures o !in s.removals && n in s.insertions ==> Synced(s, olds, news, o, n + 1)
    ensures o in s.removals && n !in s.insertions ==> Synced(s, olds, news, o + 1, n)
    ensures o in s.removals && n in s.insertions ==> Synced(s, olds, news, o + 1, n + 1)
  {
    var ko := Kept(olds, s.removals, o);
    var kn := Kept(news, s.insertions, n);
    if o < |olds| {
      assert ko == (if o in s.removals then [] else [olds[o]]) + Kept(olds, s.removals, o + 1);
    } else {
      assert ko == [];
    }
    if n < |news| {
      assert kn == (if n in s.insertions then [] else [news[n]]) + Kept(news, s.insertions, n + 1);
    } else {
      assert kn == [];
    }
    if o < |olds| && n < |news| && o !in s.removals && n !in s.insertions {
      assert ko[0] == olds[o] && kn[0] == news[n];
      assert ko[1..] == Kept(olds, s.removals, o + 1);
      assert kn[1..] == Kept(news, s.insertions, n + 1);
    }
    if o in s.removals {
      var rest := Kept(olds, s.removals, o + 1);
      assert ko == [] + rest;
      assert [] + rest == rest;
    }
    if n in s.insertions {
      var rest := Kept(news, s.insertions, n + 1);
      assert kn == [] + rest;
      assert [] + rest == rest;
    }
  }

  // ---------------------------------------------------------------------------
  // The walk as a sequence of steps
  // ---------------------------------------------------------------------------

  datatype Step<T> =
    | Unchanged(before: T, after: T)
    | Replaced(before: T, after: T)
    | Inserted(after: T)
    | Removed(before: T)

  /** The old elements a trace consumes, in order. */
  function OldSide<T>(steps: seq<Step<T>>): seq<T> {
    if steps == [] then []
    else (if steps[0].Inserted? then [] else [steps[0].before]) + OldSide(steps[1..])
  }

  /** The new elements a trace consumes, in order. */
  function NewSide<T>(steps: seq<Step<T>>): seq<T> {
    if steps == [] then []
    else (if steps[0].Removed? then [] else [steps[0].after]) + NewSide(steps[1..])
  }

  /**
   * The walk used when diffing ordered collections: a position that is both
   * removed and inserted is paired as a replacement.
   */
  function TreeTrace<T(==)>(s: EditScript, olds: seq<T>, news: seq<T>, o: nat, n: nat): (r: seq<Step<T>>)
    requires Synced(s, olds, news, o, n)
    ensures forall k :: 0 <= k < |r| && r[k].Unchanged? ==> r[k].before == r[k].after
    decreases |olds| - o + |news| - n
  {
    if o >= |olds| && n >= |news| then []
    else
      StepFacts(s, olds, news, o, n);
      var isRemoval := o in s.removals;
      var isInsertion := n in s.insertions;
      if !isRemoval && !isInsertion then
        [Unchanged(olds[o], news[n])] + TreeTrace(s, olds, news, o + 1, n + 1)
      else if !isRemoval then
        [Inserted(news[n])] + TreeTrace(s, olds, news, o, n + 1)
      else if !isInsertion then
        [Removed(olds[o])] + TreeTrace(s, olds, news, o + 1, n)
      else
        [Replaced(olds[o], news[n])] + TreeTrace(s, olds, news, o + 1, n + 1)
  }

  /**
   * The walk used when diffing dump lines: a position that is both removed and
   * inserted is emitted as a removal first; the insertion follows on a later step.
   */
  function LineTrace<T(==)>(s: EditScript, olds: seq<T>, news: seq<T>, o: nat, n: nat): (r: seq<Step<T>>)
    requires Synced(s, olds, news, o, n)
    ensures forall k :: 0 <= k < |r| ==> !r[k].Replaced?
    ensures forall k :: 0 <= k < |r| && r[k].Unchanged? ==> r[k].before == r[k].after
    decreases |olds| - o + |news| - n
  {
    if o >= |olds| && n >= |news| then []
    else
      StepFacts(s, olds, news, o, n);
      if o in s.removals then
        [Removed(olds[o])] + LineTrace(s, olds, news, o + 1, n)
      else if n in s.insertions then
        [Inserted(news[n])] + LineTrace(s, olds, news, o, n + 1)
      else
        [Unchanged(olds[o], news[n])] + LineTrace(s, olds, news, o + 1, n + 1)
  }

  lemma {:induction false} OldSideAppend<T>(a: seq<Step<T>>, b: seq<Step<T>>)
    ensures OldSide(a + b) == OldSide(a) + OldSide(b)
  {
    if a == [] {
      assert a + b == b;
    } else {
      var ab := a + b;
      assert ab[0] == a[0];
      assert ab[1..] == a[1..] + b;
      OldSideAppend(a[1..], b);
    }
  }

  lemma {:induction false} NewSideAppend<T>(a: seq<Step<T>>, b: seq<Step<T>>)
    ensures NewSide(a + b) == NewSide(a) + NewSide(b)
  {
    if a == [] {
      assert a + b == b;
    } else {
      var ab := a + b;
      assert ab[0] == a[0];
      assert ab[1..] == a[1..] + b;
      NewSideAppend(a[1..], b);
    }
  }

  /** The sides of a trace with one more step in front. */
  lemma SidesCons<T>(st: Step<T>, rest: seq<Step<T>>)
    ensures OldSide([st] + rest) == (if st.Inserted? then [] else [st.before]) + OldSide(rest)
    ensures NewSide([st] + rest) == (if st.Removed? then [] else [st.after]) + NewSide(rest)
  {
    assert ([st] + rest)[1..] == rest;
  }

  /** The tree walk consumes every old and every new element exactly once, in order. */
  lemma {:induction false} TreeTraceConsumesAll<T>(s: EditScript, olds: seq<T>, news: seq<T>, o: nat, n: nat)
    requires Synced(s, olds, news, o, n)
    ensures OldSide(TreeTrace(s, olds, news, o, n)) == olds[o..]
    ensures NewSide(TreeTrace(s, olds, news, o, n)) == news[n..]
    decreases |olds| - o + |news| - n
  {
    if o >= |olds| && n >= |news| {
    } else {
      StepFacts(s, olds, news, o, n);
      var r := TreeTrace(s, olds, news, o, n);
      var isRemoval := o in s.removals;
      var isInsertion := n in s.insertions;
      var o', n' := if isRemoval || !isInsertion then o + 1 else o, if isInsertion || !isRemoval then n + 1 else n;
      var rest := TreeTrace(s, olds, news, o', n');
      assert r == [r[0]] + rest;
      TreeTraceConsumesAll(s, olds, news, o', n');
      SidesCons(r[0], rest);
      if o' == o + 1 {
        assert olds[o..] == [olds[o]] + olds[o + 1..];
      }
      if n' == n + 1 {
        assert news[n..] == [news[n]] + news[n + 1..];
      }
    }
  }

  /** The line walk consumes every old and every new line exactly once, in order. */
  lemma {:induction false} LineTraceConsumesAll<T>(s: EditScript, olds: seq<T>, news: seq<T>, o: nat, n: nat)
    requires Synced(s, olds, news, o, n)
    ensures OldSide(LineTrace(s, olds, news, o, n)) == olds[o..]
    ensures NewSide(LineTrace(s, olds, news, o, n)) == news[n..]
    decreases |olds| - o + |news| - n
  {
    if o >= |olds| && n >= |news| {
    } else {
      StepFacts(s, olds, news, o, n);
      var r := LineTrace(s, olds, news, o, n);
      var o', n' := if o in s.removals || n !in s.insertions then o + 1 else o, if o in s.removals then n else n + 1;
      var rest := LineTrace(s, olds, news, o', n');
      assert r == [r[0]] + rest;
      LineTraceConsumesAll(s, olds, news, o', n');
      SidesCons(r[0], rest);
      if o' == o + 1 {
        assert olds[o..] == [olds[o]] + olds[o + 1..];
      }
      if n' == n + 1 {
        assert news[n..] == [news[n]] + news[n + 1..];
      }
    }
  }
}
