/**
 * The pass between tokenizing and printing: in every group, children beyond
 * the item limit and filtered children (or, when the group holds diffs,
 * unchanged and filtered children) are collapsed run by run into summary
 * values such as `… (7 more)` or `… (2 unchanged)`; diff tokens that have a
 * side are replaced by that side; and a filtered root becomes a summary.
 */
module Summaries {
  import opened Wrappers
  import opened DumpTokens
  import KeyValues

  // ---------------------------------------------------------------------------
  // Which children exceed the item limit
  // ---------------------------------------------------------------------------

  /** Half of `a` rounded toward zero, as the original's `quotientAndRemainder(dividingBy: 2)`. */
  function HalfQuotient(a: int): (q: int)
    ensures a >= 0 ==> 0 <= 2 * q <= a < 2 * q + 2
    ensures a < 0 ==> 2 * q - 2 < a <= 2 * q <= 0
  {
    if a >= 0 then a / 2 else -((-a) / 2)
  }

  /** The remainder that goes with `HalfQuotient`: it takes the sign of `a`. */
  function HalfRemainder(a: int): (r: int)
    ensures a == 2 * HalfQuotient(a) + r
    ensures -2 < r < 2 && (a >= 0 ==> r >= 0) && (a < 0 ==> r <= 0)
  {
    a - 2 * HalfQuotient(a)
  }

  /** Children after this index may be skipped: the first ⌈maxItems/2⌉ are kept. */
  function SkipStart(maxItems: int): int {
    HalfQuotient(maxItems) + HalfRemainder(maxItems) - 1
  }

  /** Children before this index may be skipped: the last ⌊maxItems/2⌋ are kept. */
  function SkipEnd(count: int, maxItems: int): int {
    count - HalfQuotient(maxItems)
  }

  predicate Skipped(i: int, count: int, maxItems: int) {
    SkipStart(maxItems) < i < SkipEnd(count, maxItems)
  }

  /**
   * With a non-negative limit, a child is skipped exactly when it is neither
   * among the first ⌈maxItems/2⌉ nor among the last ⌊maxItems/2⌋.
   */
  lemma SkippedExactly(i: int, count: int, maxItems: int)
    requires maxItems >= 0
    ensures Skipped(i, count, maxItems) <==> (maxItems + 1) / 2 <= i < count - maxItems / 2
  {
  }

  /** A negative limit skips every child. */
  lemma NegativeLimitSkipsAll(i: int, count: int, maxItems: int)
    requires maxItems < 0 && 0 <= i < count
    ensures Skipped(i, count, maxItems)
  {
  }

  // ---------------------------------------------------------------------------
  // Runs
  // ---------------------------------------------------------------------------

  /** A child kept as it is, or a maximal run of collapsed children and how many of them were filtered. */
  datatype Entry = Keep(token: Token) | Run(length: nat, filtered: nat)

  function Count(bs: seq<bool>): (r: nat)
    ensures r <= |bs|
  {
    if bs == [] then 0 else (if bs[0] then 1 else 0) + Count(bs[1..])
  }

  /** How many positions are set in both `a` and `b`. */
  function CountBoth(a: seq<bool>, b: seq<bool>): (r: nat)
    requires |a| == |b|
    ensures r <= |a|
  {
    if a == [] then 0 else (if a[0] && b[0] then 1 else 0) + CountBoth(a[1..], b[1..])
  }

  /** The marks a list of entries stands for: one unset mark per kept child, `length` set ones per run. */
  function Shape(es: seq<Entry>): seq<bool> {
    if es == [] then []
    else (if es[0].Keep? then [false] else seq(es[0].length, _ => true)) + Shape(es[1..])
  }

  /** The kept children, in order. */
  function Keeps(es: seq<Entry>): seq<Token> {
    if es == [] then [] else (if es[0].Keep? then [es[0].token] else []) + Keeps(es[1..])
  }

  /** The children whose mark is unset, in order. */
  function Unmarked(ts: seq<Token>, marks: seq<bool>): seq<Token>
    requires |ts| == |marks|
  {
    if ts == [] then [] else (if marks[0] then [] else [ts[0]]) + Unmarked(ts[1..], marks[1..])
  }

  function FilteredTotal(es: seq<Entry>): nat {
    if es == [] then 0 else (if es[0].Run? then es[0].filtered else 0) + FilteredTotal(es[1..])
  }

  /** Every run is non-empty and counts no more filtered children than it holds. */
  predicate SizedRuns(es: seq<Entry>) {
    forall k :: 0 <= k < |es| && es[k].Run? ==> 1 <= es[k].length && es[k].filtered <= es[k].length
  }

  /** No run directly follows another. */
  predicate SeparatedRuns(es: seq<Entry>) {
    forall k :: 0 <= k < |es| - 1 ==> !(es[k].Run? && es[k + 1].Run?)
  }

  predicate WellFormedRuns(es: seq<Entry>) {
    SizedRuns(es) && SeparatedRuns(es)
  }

  /** How many children at the front are marked. */
  function LeadingMarked(marks: seq<bool>): (b: nat)
    ensures b <= |marks|
    ensures forall i :: 0 <= i < b ==> marks[i]
    ensures b < |marks| ==> !marks[b]
  {
    if marks == [] || !marks[0] then 0 else 1 + LeadingMarked(marks[1..])
  }

  /** The leading block is the only one that is all marked and ends at an unmarked child or the end. */
  lemma LeadingMarkedUnique(marks: seq<bool>, b: nat)
    requires b <= |marks| && (forall i :: 0 <= i < b ==> marks[i]) && (b < |marks| ==> !marks[b])
    ensures LeadingMarked(marks) == b
  {
  }

  /**
   * Collapses every maximal run of marked children into one entry counting
   * its length and its filtered children; unmarked children are kept.
   */
  function Runs(ts: seq<Token>, marks: seq<bool>, filtered: seq<bool>): (r: seq<Entry>)
    requires |marks| == |ts| && |filtered| == |ts|
    decreases |ts|
  {
    if ts == [] then []
    else if !marks[0] then [Keep(ts[0])] + Runs(ts[1..], marks[1..], filtered[1..])
    else
      var b := LeadingMarked(marks);
      [Run(b, CountBoth(marks[..b], filtered[..b]))] + Runs(ts[b..], marks[b..], filtered[b..])
  }

  /** A non-empty list of children gives a non-empty list of entries, which starts with a run exactly when the first child is marked. */
  lemma RunsFirst(ts: seq<Token>, marks: seq<bool>, filtered: seq<bool>)
    requires |marks| == |ts| && |filtered| == |ts| && ts != []
    ensures Runs(ts, marks, filtered) != [] && (Runs(ts, marks, filtered)[0].Run? <==> marks[0])
  {
  }

  lemma {:induction false} ShapeCons(e: Entry, es: seq<Entry>)
    ensures Shape([e] + es) == (if e.Keep? then [false] else seq(e.length, _ => true)) + Shape(es)
  {
    assert ([e] + es)[0] == e && ([e] + es)[1..] == es;
  }

  /** The runs stand for exactly the given marks: each run covers as many marked children as its length. */
  lemma {:induction false} RunsShape(ts: seq<Token>, marks: seq<bool>, filtered: seq<bool>)
    requires |marks| == |ts| && |filtered| == |ts|
    ensures Shape(Runs(ts, marks, filtered)) == marks
    decreases |ts|
  {
    if ts != [] {
      if !marks[0] {
        RunsShape(ts[1..], marks[1..], filtered[1..]);
        ShapeCons(Keep(ts[0]), Runs(ts[1..], marks[1..], filtered[1..]));
        assert marks == [marks[0]] + marks[1..];
      } else {
        var b := LeadingMarked(marks);
        RunsShape(ts[b..], marks[b..], filtered[b..]);
        ShapeCons(Run(b, CountBoth(marks[..b], filtered[..b])), Runs(ts[b..], marks[b..], filtered[b..]));
        assert seq(b, _ => true) == marks[..b];
        assert marks == marks[..b] + marks[b..];
      }
    }
  }

  /** Every child of an all-marked prefix is dropped from the unmarked ones. */
  lemma {:induction false} UnmarkedSkip(ts: seq<Token>, marks: seq<bool>, b: nat)
    requires |marks| == |ts| && b <= |ts| && forall i :: 0 <= i < b ==> marks[i]
    ensures Unmarked(ts, marks) == Unmarked(ts[b..], marks[b..])
  {
    if b > 0 {
      UnmarkedSkip(ts[1..], marks[1..], b - 1);
      assert ts[1..][b - 1..] == ts[b..] && marks[1..][b - 1..] == marks[b..];
    }
  }

  /** The kept children are exactly the unmarked ones, in order. */
  lemma {:induction false} RunsKeeps(ts: seq<Token>, marks: seq<bool>, filtered: seq<bool>)
    requires |marks| == |ts| && |filtered| == |ts|
    ensures Keeps(Runs(ts, marks, filtered)) == Unmarked(ts, marks)
    decreases |ts|
  {
    if ts != [] {
      var r := Runs(ts, marks, filtered);
      if !marks[0] {
        RunsKeeps(ts[1..], marks[1..], filtered[1..]);
        assert r[0] == Keep(ts[0]) && r[1..] == Runs(ts[1..], marks[1..], filtered[1..]);
      } else {
        var b := LeadingMarked(marks);
        RunsKeeps(ts[b..], marks[b..], filtered[b..]);
        UnmarkedSkip(ts, marks, b);
        assert r[0].Run? && r[1..] == Runs(ts[b..], marks[b..], filtered[b..]);
      }
    }
  }

  /** Counting over a split list adds the counts of the two parts. */
  lemma {:induction false} CountBothSplit(a: seq<bool>, c: seq<bool>, b: nat)
    requires |a| == |c| && b <= |a|
    ensures CountBoth(a, c) == CountBoth(a[..b], c[..b]) + CountBoth(a[b..], c[b..])
  {
    if b > 0 {
      CountBothSplit(a[1..], c[1..], b - 1);
      assert a[1..][..b - 1] == a[..b][1..] && c[1..][..b - 1] == c[..b][1..];
      assert a[1..][b - 1..] == a[b..] && c[1..][b - 1..] == c[b..];
    } else {
      assert a[..0] == [] && a[0..] == a && c[0..] == c;
    }
  }

  /** The runs together count exactly the children that are both marked and filtered. */
  lemma {:induction false} RunsFiltered(ts: seq<Token>, marks: seq<bool>, filtered: seq<bool>)
    requires |marks| == |ts| && |filtered| == |ts|
    ensures FilteredTotal(Runs(ts, marks, filtered)) == CountBoth(marks, filtered)
    decreases |ts|
  {
    if ts != [] {
      var r := Runs(ts, marks, filtered);
      if !marks[0] {
        RunsFiltered(ts[1..], marks[1..], filtered[1..]);
        assert r[0] == Keep(ts[0]) && r[1..] == Runs(ts[1..], marks[1..], filtered[1..]);
      } else {
        var b := LeadingMarked(marks);
        RunsFiltered(ts[b..], marks[b..], filtered[b..]);
        CountBothSplit(marks, filtered, b);
        assert r[0] == Run(b, CountBoth(marks[..b], filtered[..b])) && r[1..] == Runs(ts[b..], marks[b..], filtered[b..]);
      }
    }
  }

  /** Every run is non-empty and counts no more filtered children than it holds. */
  lemma {:induction false} RunsSized(ts: seq<Token>, marks: seq<bool>, filtered: seq<bool>)
    requires |marks| == |ts| && |filtered| == |ts|
    ensures SizedRuns(Runs(ts, marks, filtered))
    decreases |ts|
  {
    if ts != [] {
      var r := Runs(ts, marks, filtered);
      var b := if marks[0] then LeadingMarked(marks) else 1;
      var rest := Runs(ts[b..], marks[b..], filtered[b..]);
      RunsSized(ts[b..], marks[b..], filtered[b..]);
      assert r[1..] == rest;
      forall k | 0 <= k < |r| && r[k].Run?
        ensures 1 <= r[k].length && r[k].filtered <= r[k].length
      {
        if k > 0 {
          assert r[k] == rest[k - 1];
        }
      }
    }
  }

  /** No run directly follows another: runs are maximal. */
  lemma {:induction false} RunsSeparated(ts: seq<Token>, marks: seq<bool>, filtered: seq<bool>)
    requires |marks| == |ts| && |filtered| == |ts|
    ensures SeparatedRuns(Runs(ts, marks, filtered))
    decreases |ts|
  {
    if ts != [] {
      var r := Runs(ts, marks, filtered);
      var b := if marks[0] then LeadingMarked(marks) else 1;
      var rest := Runs(ts[b..], marks[b..], filtered[b..]);
      RunsSeparated(ts[b..], marks[b..], filtered[b..]);
      if marks[0] && b < |ts| {
        RunsFirst(ts[b..], marks[b..], filtered[b..]);
      }
      assert r[1..] == rest;
      forall k | 0 <= k < |r| - 1
        ensures !(r[k].Run? && r[k + 1].Run?)
      {
        assert r[k + 1] == rest[k];
        if k > 0 {
          assert r[k] == rest[k - 1];
        }
      }
    }
  }

  /**
   * The runs stand for exactly the given marks, keep exactly the unmarked
   * children, count exactly the marked filtered children, and are maximal.
   */
  lemma RunsSpec(ts: seq<Token>, marks: seq<bool>, filtered: seq<bool>)
    requires |marks| == |ts| && |filtered| == |ts|
    ensures var r := Runs(ts, marks, filtered);
      && Shape(r) == marks
      && Keeps(r) == Unmarked(ts, marks)
      && FilteredTotal(r) == CountBoth(marks, filtered)
      && WellFormedRuns(r)
  {
    RunsShape(ts, marks, filtered);
    RunsKeeps(ts, marks, filtered);
    RunsFiltered(ts, marks, filtered);
    RunsSized(ts, marks, filtered);
    RunsSeparated(ts, marks, filtered);
  }

  /** Every child kept. */
  function KeepAll(ts: seq<Token>): (r: seq<Entry>)
    ensures |r| == |ts| && forall i :: 0 <= i < |ts| ==> r[i] == Keep(ts[i])
  {
    seq(|ts|, i requires 0 <= i < |ts| => Keep(ts[i]))
  }

  /** Unmarked leading children are kept one by one. */
  lemma {:induction false} RunsUnmarkedPrefix(ts: seq<Token>, marks: seq<bool>, filtered: seq<bool>, a: nat)
    requires |marks| == |ts| && |filtered| == |ts| && a <= |ts|
    requires forall i :: 0 <= i < a ==> !marks[i]
    ensures Runs(ts, marks, filtered) == KeepAll(ts[..a]) + Runs(ts[a..], marks[a..], filtered[a..])
  {
    if a > 0 {
      RunsUnmarkedPrefix(ts[1..], marks[1..], filtered[1..], a - 1);
      assert ts[1..][a - 1..] == ts[a..] && marks[1..][a - 1..] == marks[a..];
      assert filtered[1..][a - 1..] == filtered[a..];
      assert KeepAll(ts[..a]) == [Keep(ts[0])] + KeepAll(ts[1..][..a - 1]);
    } else {
      assert ts[0..] == ts && marks[0..] == marks && filtered[0..] == filtered;
    }
  }

  /** A leading block of `b` marked children, followed by an unmarked one or nothing, becomes one run. */
  lemma RunsMarkedBlock(ts: seq<Token>, marks: seq<bool>, filtered: seq<bool>, b: nat)
    requires |marks| == |ts| && |filtered| == |ts| && 1 <= b <= |ts|
    requires forall i :: 0 <= i < b ==> marks[i]
    requires b < |ts| ==> !marks[b]
    ensures Runs(ts, marks, filtered) ==
      [Run(b, CountBoth(marks[..b], filtered[..b]))] + Runs(ts[b..], marks[b..], filtered[b..])
  {
    LeadingMarkedUnique(marks, b);
  }

  /** With nothing marked, every child is kept. */
  lemma RunsNoneMarked(ts: seq<Token>, marks: seq<bool>, filtered: seq<bool>)
    requires |marks| == |ts| && |filtered| == |ts|
    requires forall i :: 0 <= i < |ts| ==> !marks[i]
    ensures Runs(ts, marks, filtered) == KeepAll(ts)
  {
    RunsUnmarkedPrefix(ts, marks, filtered, |ts|);
    assert ts[..|ts|] == ts;
  }

  /** `RunsMarkedBlock` for a block that starts at position `h`. */
  lemma RunsMarkedBlockAt(ts: seq<Token>, marks: seq<bool>, filtered: seq<bool>, h: nat, b: nat)
    requires |marks| == |ts| && |filtered| == |ts| && 1 <= b && h + b <= |ts|
    requires forall i :: h <= i < h + b ==> marks[i]
    requires h + b < |ts| ==> !marks[h + b]
    ensures Runs(ts[h..], marks[h..], filtered[h..]) ==
      [Run(b, CountBoth(marks[h..h + b], filtered[h..h + b]))] + Runs(ts[h + b..], marks[h + b..], filtered[h + b..])
  {
    var ts', marks', filtered' := ts[h..], marks[h..], filtered[h..];
    RunsMarkedBlock(ts', marks', filtered', b);
    assert ts'[b..] == ts[h + b..] && marks'[b..] == marks[h + b..] && filtered'[b..] == filtered[h + b..];
    assert marks'[..b] == marks[h..h + b] && filtered'[..b] == filtered[h..h + b];
  }

  /**
   * Children unmarked, then marked, then unmarked again become their
   * leading children kept, one run, and their trailing children kept.
   */
  lemma RunsThreeBlocks(ts: seq<Token>, marks: seq<bool>, filtered: seq<bool>, h: nat, b: nat)
    requires |marks| == |ts| && |filtered| == |ts| && 1 <= b && h + b <= |ts|
    requires forall i :: 0 <= i < |ts| ==> (marks[i] <==> h <= i < h + b)
    ensures Runs(ts, marks, filtered) ==
      KeepAll(ts[..h]) + [Run(b, CountBoth(marks[h..h + b], filtered[h..h + b]))] + KeepAll(ts[h + b..])
  {
    var run := Run(b, CountBoth(marks[h..h + b], filtered[h..h + b]));
    assert forall i :: 0 <= i < h ==> !marks[i];
    RunsUnmarkedPrefix(ts, marks, filtered, h);
    assert forall i :: h <= i < h + b ==> marks[i];
    RunsMarkedBlockAt(ts, marks, filtered, h, b);
    var tail := marks[h + b..];
    assert forall i :: 0 <= i < |tail| ==> !tail[i] by {
      forall i | 0 <= i < |tail| ensures !tail[i] {
        assert tail[i] == marks[h + b + i];
      }
    }
    RunsNoneMarked(ts[h + b..], tail, filtered[h + b..]);
    var left := KeepAll(ts[..h]);
    var right := KeepAll(ts[h + b..]);
    assert left + ([run] + right) == left + [run] + right;
  }

  // ---------------------------------------------------------------------------
  // Summary values
  // ---------------------------------------------------------------------------

  /**
   * The value that stands for a run. Each count is mentioned only when it is
   * positive, and the skipped or unchanged count only when it differs from
   * the filtered one; one entry is shown alone, two together.
   */
  function SummaryToken(skippedCount: int, unchangedCount: int, filteredCount: int, sym: Symbols): (r: Token)
    ensures r.Value?
  {
    var s := if skippedCount > 0 && skippedCount != filteredCount then Some(sym.summaryEntrySkipped(skippedCount)) else None;
    var u := if unchangedCount > 0 && unchangedCount != filteredCount then Some(sym.summaryEntryUnchanged(unchangedCount)) else None;
    var fl := if filteredCount > 0 then Some(sym.summaryEntryFiltered(filteredCount)) else None;
    match (s, u, fl)
    case (None, None, None) => Value(sym.summarySingleEntry("?"))
    case (Some(a), None, None) => Value(sym.summarySingleEntry(a))
    case (None, Some(a), None) => Value(sym.summarySingleEntry(a))
    case (None, None, Some(a)) => Value(sym.summarySingleEntry(a))
    case (Some(a), Some(b), None) => Value(sym.summaryDualEntry(a, b))
    case (Some(a), None, Some(b)) => Value(sym.summaryDualEntry(a, b))
    case (None, Some(a), Some(b)) => Value(sym.summaryDualEntry(a, b))
    case (Some(_), Some(a), Some(b)) => Value(sym.summaryDualEntry(a, b))
  }

  /** The value for a run: skipped children in a group without diffs, unchanged ones otherwise. */
  function RunToken(length: nat, filtered: nat, withoutDiffs: bool, sym: Symbols): Token {
    if withoutDiffs then SummaryToken(length, 0, filtered, sym) else SummaryToken(0, length, filtered, sym)
  }

  /**
   * A run of `length` children, `filtered` of them filtered, reports its
   * length, and reports the filtered count only when it differs from the length.
   */
  lemma RunSummary(length: nat, filtered: nat, withoutDiffs: bool, sym: Symbols)
    requires 1 <= length && filtered <= length
    ensures var entry := if withoutDiffs then sym.summaryEntrySkipped(length) else sym.summaryEntryUnchanged(length);
      RunToken(length, filtered, withoutDiffs, sym) ==
        if filtered == 0 then Value(sym.summarySingleEntry(entry))
        else if filtered == length then Value(sym.summarySingleEntry(sym.summaryEntryFiltered(filtered)))
        else Value(sym.summaryDualEntry(entry, sym.summaryEntryFiltered(filtered)))
  {
  }

  /** With the default symbols the three shapes read `… (N more)`, `… (F filtered)` and `… (N more with F filtered)`. */
  lemma DefaultRunSummary(length: nat, filtered: nat)
    requires 1 <= length && filtered <= length
    ensures var n, f := KeyValues.IntDescription(length), KeyValues.IntDescription(filtered);
      RunToken(length, filtered, true, DefaultSymbols) ==
        if filtered == 0 then Value("… (" + n + " more)")
        else if filtered == length then Value("… (" + f + " filtered)")
        else Value("… (" + n + " more with " + f + " filtered)")
  {
    RunSummary(length, filtered, true, DefaultSymbols);
    if filtered == 0 {
      DefaultSingle(DefaultSymbols.summaryEntrySkipped(length), KeyValues.IntDescription(length), " more");
    } else if filtered == length {
      DefaultSingle(DefaultSymbols.summaryEntryFiltered(filtered), KeyValues.IntDescription(filtered), " filtered");
    } else {
      DefaultDual(length, filtered);
    }
  }

  lemma DefaultSingle(entry: string, count: string, word: string)
    requires entry == count + word
    ensures DefaultSymbols.summarySingleEntry(entry) == "… (" + count + word + ")"
  {
    assert "… (" + (count + word) + ")" == "… (" + count + word + ")";
  }

  lemma DefaultDual(n: nat, f: nat)
    ensures DefaultSymbols.summaryDualEntry(DefaultSymbols.summaryEntrySkipped(n), DefaultSymbols.summaryEntryFiltered(f))
      == "… (" + KeyValues.IntDescription(n) + " more with " + KeyValues.IntDescription(f) + " filtered)"
  {
    var a, b := KeyValues.IntDescription(n), KeyValues.IntDescription(f);
    assert "… (" + (a + " more") + " with " + (b + " filtered") + ")" == "… (" + a + " more with " + b + " filtered)";
  }

  // ---------------------------------------------------------------------------
  // Summarizing a group and processing a token tree
  // ---------------------------------------------------------------------------

  predicate WithoutDiffs(subs: seq<Token>) {
    forall i :: 0 <= i < |subs| ==> !ContainsDiff(subs[i])
  }

  function FilteredFlags(subs: seq<Token>): (r: seq<bool>)
    ensures |r| == |subs| && forall i :: 0 <= i < |subs| ==> r[i] == IsFiltered(subs[i])
  {
    seq(|subs|, i requires 0 <= i < |subs| => IsFiltered(subs[i]))
  }

  /**
   * The children a group collapses: beyond the item limit or filtered when
   * it holds no diff, unchanged or filtered otherwise.
   */
  function CollapseMarks(subs: seq<Token>, maxItems: int): (r: seq<bool>)
    ensures |r| == |subs|
    ensures WithoutDiffs(subs) ==>
      forall i :: 0 <= i < |subs| ==> r[i] == (Skipped(i, |subs|, maxItems) || IsFiltered(subs[i]))
    ensures !WithoutDiffs(subs) ==>
      forall i :: 0 <= i < |subs| ==> r[i] == (!ContainsDiff(subs[i]) || IsFiltered(subs[i]))
  {
    if WithoutDiffs(subs) then
      seq(|subs|, i requires 0 <= i < |subs| => Skipped(i, |subs|, maxItems) || IsFiltered(subs[i]))
    else
      seq(|subs|, i requires 0 <= i < |subs| => !ContainsDiff(subs[i]) || IsFiltered(subs[i]))
  }

  function Summarize(subs: seq<Token>, maxItems: int): seq<Entry> {
    Runs(subs, CollapseMarks(subs, maxItems), FilteredFlags(subs))
  }

  /**
   * A group's summary collapses exactly its marked children, into maximal
   * runs that together count every marked filtered child, and keeps the rest.
   */
  lemma SummarizeSpec(subs: seq<Token>, maxItems: int)
    ensures var r, marks := Summarize(subs, maxItems), CollapseMarks(subs, maxItems);
      && Shape(r) == marks
      && Keeps(r) == Unmarked(subs, marks)
      && FilteredTotal(r) == CountBoth(marks, FilteredFlags(subs))
      && WellFormedRuns(r)
  {
    RunsSpec(subs, CollapseMarks(subs, maxItems), FilteredFlags(subs));
  }

  /** A kept entry holds one of the children it came from. */
  lemma {:induction false} KeepsFrom(ts: seq<Token>, marks: seq<bool>, filtered: seq<bool>, k: nat)
    requires |marks| == |ts| && |filtered| == |ts|
    requires k < |Runs(ts, marks, filtered)| && Runs(ts, marks, filtered)[k].Keep?
    ensures Runs(ts, marks, filtered)[k].token in ts
    decreases |ts|
  {
    var r := Runs(ts, marks, filtered);
    if k > 0 {
      var b := if marks[0] then LeadingMarked(marks) else 1;
      var rest := Runs(ts[b..], marks[b..], filtered[b..]);
      assert r[k] == rest[k - 1];
      KeepsFrom(ts[b..], marks[b..], filtered[b..], k - 1);
      assert rest[k - 1].token in ts[b..];
    }
  }

  /**
   * The token after summarizing: diff tokens with a side become that side,
   * every group is summarized and its children processed, and a filtered
   * root becomes the summary of one filtered child.
   */
  function Process(t: Token, f: DumpFormat, isRootLevel: bool): (r: Token)
    ensures NoDiffSides(r)
    decreases t, 1
  {
    match t
    case Diff(side) =>
      if side.Some? then Process(side.value, f, false) else t
    case Filtered =>
      if isRootLevel then SummaryToken(0, 0, 1, f.symbols) else t
    case Group(prefix, subs, suffix) =>
      var es := Summarize(subs, f.maxItems);
      forall k | 0 <= k < |es| && es[k].Keep? ensures es[k].token in subs {
        KeepsFrom(subs, CollapseMarks(subs, f.maxItems), FilteredFlags(subs), k);
      }
      Group(prefix, ProcessEntries(es, subs, WithoutDiffs(subs), f), suffix)
    case Pair(first, separator, second) =>
      var processedFirst := if first.Some? then Some(Process(first.value, f, false)) else None;
      Pair(processedFirst, separator, Process(second, f, false))
    case Value(_) => t
  }

  /** Processes kept children and turns runs into summary values. */
  function ProcessEntries(es: seq<Entry>, subs: seq<Token>, withoutDiffs: bool, f: DumpFormat): (r: seq<Token>)
    requires forall k :: 0 <= k < |es| && es[k].Keep? ==> es[k].token in subs
    ensures |r| == |es|
    ensures forall k :: 0 <= k < |r| ==> NoDiffSides(r[k])
    decreases subs, |es|
  {
    if es == [] then []
    else
      var head := match es[0]
        case Keep(token) => Process(token, f, false)
        case Run(length, filtered) => RunToken(length, filtered, withoutDiffs, f.symbols);
      [head] + ProcessEntries(es[1..], subs, withoutDiffs, f)
  }

  /** No diff token with a side is left anywhere. */
  predicate NoDiffSides(t: Token) {
    match t
    case Diff(side) => side.None?
    case Filtered => true
    case Group(_, subs, _) => forall i :: 0 <= i < |subs| ==> NoDiffSides(subs[i])
    case Pair(first, _, second) => (first.None? || NoDiffSides(first.value)) && NoDiffSides(second)
    case Value(_) => true
  }

  /** A filtered root is written as `… (1 filtered)`. */
  lemma RootFiltered(f: DumpFormat)
    requires f.symbols == DefaultSymbols
    ensures Process(Filtered, f, true) == Value("… (1 filtered)")
  {
    var sym := f.symbols;
    assert Process(Filtered, f, true) == SummaryToken(0, 0, 1, sym);
    assert SummaryToken(0, 0, 1, sym) == Value(sym.summarySingleEntry(sym.summaryEntryFiltered(1)));
    OneFilteredSpelled();
  }

  lemma OneFilteredSpelled()
    ensures DefaultSymbols.summarySingleEntry(DefaultSymbols.summaryEntryFiltered(1)) == "… (1 filtered)"
  {
    assert KeyValues.IntDescription(1) == "1";
    assert DefaultSymbols.summaryEntryFiltered(1) == "1 filtered";
  }

  /**
   * A group without diffs or filtered children and with more children than
   * the limit keeps its first ⌈maxItems/2⌉ and last ⌊maxItems/2⌋ children
   * and replaces all the others by one run.
   */
  lemma SkipMiddle(subs: seq<Token>, maxItems: int)
    requires 0 <= maxItems < |subs|
    requires WithoutDiffs(subs) && forall i :: 0 <= i < |subs| ==> !IsFiltered(subs[i])
    ensures var head, tail := (maxItems + 1) / 2, maxItems / 2;
      Summarize(subs, maxItems) ==
        KeepAll(subs[..head]) + [Run(|subs| - maxItems, 0)] + KeepAll(subs[|subs| - tail..])
  {
    var n, head := |subs|, (maxItems + 1) / 2;
    var marks, flags := CollapseMarks(subs, maxItems), FilteredFlags(subs);
    forall i | 0 <= i < n
      ensures marks[i] <==> head <= i < head + (n - maxItems)
    {
      SkippedExactly(i, n, maxItems);
    }
    RunsThreeBlocks(subs, marks, flags, head, n - maxItems);
    NoneFilteredCount(marks[head..head + (n - maxItems)], flags[head..head + (n - maxItems)]);
    assert head + (n - maxItems) == n - maxItems / 2;
  }

  lemma {:induction false} NoneFilteredCount(a: seq<bool>, b: seq<bool>)
    requires |a| == |b| && forall i :: 0 <= i < |b| ==> !b[i]
    ensures CountBoth(a, b) == 0
  {
    if a != [] {
      NoneFilteredCount(a[1..], b[1..]);
    }
  }

  /** A group without diffs or filtered children and within the limit is left as it is. */
  lemma WithinLimit(subs: seq<Token>, maxItems: int)
    requires |subs| <= maxItems
    requires WithoutDiffs(subs) && forall i :: 0 <= i < |subs| ==> !IsFiltered(subs[i])
    ensures Summarize(subs, maxItems) == KeepAll(subs)
  {
    var marks := CollapseMarks(subs, maxItems);
    forall i | 0 <= i < |subs|
      ensures !marks[i]
    {
      SkippedExactly(i, |subs|, maxItems);
    }
    RunsNoneMarked(subs, marks, FilteredFlags(subs));
  }
}
