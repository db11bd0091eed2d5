/**
 * Writing a processed token tree as text, and the two-sided line diff.
 *
 * A group goes on one line when it has no children or when the format has a
 * positive line width and the whole group fits in what is left of the
 * current line; otherwise its prefix ends the current line, each child that
 * is not deleted gets a line of its own one indentation level deeper, and
 * the suffix starts a new line at the group's level. The text is built as
 * what has been written so far plus the line still being assembled.
 *
 * A dump of a tree with diffs renders both sides, splits each rendering into
 * lines and walks the line edit script, prefixing every line with the
 * removed, inserted or unchanged marker.
 */
module Rendering {
  import opened Wrappers
  import opened DumpTokens
  import Extensions
  import EditScripts
  import Formatting
  import Limns
  import Undiffing
  import Diffing
  import Tokenizing
  import Summaries

  // ---------------------------------------------------------------------------
  // Layout
  // ---------------------------------------------------------------------------

  /** What printing has written so far, and the line it is still assembling. */
  datatype Printed = Printed(written: string, line: string)

  /** Swift's `.whitespaces`: the tab and the space separators of Unicode category Zs. */
  predicate IsWhitespace(c: char) {
    || c == '\t' || c == ' ' || c == '\U{00A0}' || c == '\U{1680}'
    || ('\U{2000}' <= c <= '\U{200A}') || c == '\U{202F}' || c == '\U{205F}' || c == '\U{3000}'
  }

  /** How many whitespace characters `s` starts with. */
  function LeadingWhitespace(s: string): (n: nat)
    ensures n <= |s|
    ensures forall i :: 0 <= i < n ==> IsWhitespace(s[i])
    ensures n < |s| ==> !IsWhitespace(s[n])
  {
    if s == [] || !IsWhitespace(s[0]) then 0 else 1 + LeadingWhitespace(s[1..])
  }

  /** How many whitespace characters `s` ends with. */
  function TrailingWhitespace(s: string): (n: nat)
    ensures n <= |s|
    ensures forall i :: |s| - n <= i < |s| ==> IsWhitespace(s[i])
    ensures n < |s| ==> !IsWhitespace(s[|s| - n - 1])
  {
    if s == [] || !IsWhitespace(s[|s| - 1]) then 0 else 1 + TrailingWhitespace(s[..|s| - 1])
  }

  /** `r` sits at `a` in `s` with only whitespace around it. */
  predicate TrimmedAt(s: string, r: string, a: nat) {
    && a + |r| <= |s| && s[a..a + |r|] == r
    && (forall i :: 0 <= i < a ==> IsWhitespace(s[i]))
    && (forall i :: a + |r| <= i < |s| ==> IsWhitespace(s[i]))
  }

  /**
   * `s` without its leading and trailing whitespace: what is removed is all
   * whitespace, and what is left neither starts nor ends with whitespace.
   */
  function Trimmed(s: string): (r: string)
    ensures exists a :: TrimmedAt(s, r, a)
    ensures r != [] ==> !IsWhitespace(r[0]) && !IsWhitespace(r[|r| - 1])
  {
    var a := LeadingWhitespace(s);
    var rest := s[a..];
    TrimmedFacts(s, a, rest);
    rest[..|rest| - TrailingWhitespace(rest)]
  }

  /** What `Trimmed` relies on: the middle part it keeps sits at `a` with only whitespace around it. */
  lemma TrimmedFacts(s: string, a: nat, rest: string)
    requires a == LeadingWhitespace(s) && rest == s[a..]
    ensures var r := rest[..|rest| - TrailingWhitespace(rest)];
      && TrimmedAt(s, r, a)
      && (r != [] ==> !IsWhitespace(r[0]) && !IsWhitespace(r[|r| - 1]))
  {
    var n := TrailingWhitespace(rest);
    var r := rest[..|rest| - n];
    assert s[a..a + |r|] == r;
    forall i | a + |r| <= i < |s|
      ensures IsWhitespace(s[i])
    {
      assert s[i] == rest[i - a];
    }
    if r != [] {
      assert r[0] == s[a];
      assert r[|r| - 1] == rest[|rest| - n - 1];
    }
  }

  /** The default separator `, ` loses its space on broken lines. */
  lemma DefaultSeparatorTrimmed()
    ensures Trimmed(DefaultSymbols.elementSeparator) == ","
  {
    assert LeadingWhitespace(", ") == 0;
    assert TrailingWhitespace(",") == 0;
    assert TrailingWhitespace(", ") == 1;
  }

  /** Whether a group is laid out on the current line. */
  predicate SingleLine(subs: seq<Token>, t: Token, f: DumpFormat, line: string) {
    subs == [] || (f.maxLineWidth >= 1 && Fits(t, f.maxLineWidth - |line|, f.symbols.elementSeparator))
  }

  /**
   * Prints `t` at `indentation` after `line`. Missing sides and filtered
   * tokens print nothing, a diff side prints as itself, a pair prints its
   * first part, its separator and its second part, a value is appended.
   */
  function Print(t: Token, f: DumpFormat, indentation: int, line: string): Printed
    decreases t, 0
  {
    match t
    case Diff(side) =>
      if side.Some? then Print(side.value, f, indentation, line) else Printed("", line)
    case Filtered => Printed("", line)
    case Group(prefix, subs, suffix) =>
      if SingleLine(subs, t, f, line) then
        var inner := PrintFlat(subs, 0, f, indentation + 1, line + prefix);
        Printed(inner.written, inner.line + suffix)
      else
        var body := PrintBroken(subs, 0, f, indentation + 1);
        Printed(line + prefix + "\n" + body,
          Extensions.Indented("", f.symbols.indentationCharacters, indentation) + suffix)
    case Pair(first, separator, second) =>
      var a := if first.Some? then Print(first.value, f, indentation, line) else Printed("", line);
      var b := Print(second, f, indentation, a.line + separator);
      Printed(a.written + b.written, b.line)
    case Value(text) => Printed("", line + text)
  }

  /**
   * The children of a one-line group from index `i` on: each child that is
   * not deleted is printed in turn and followed by the separator unless it
   * is the last child (deleted children count when deciding which is last).
   */
  function PrintFlat(subs: seq<Token>, i: nat, f: DumpFormat, indentation: int, line: string): Printed
    requires i <= |subs|
    decreases subs, |subs| - i
  {
    if i == |subs| then Printed("", line)
    else if IsDeleted(subs[i]) then PrintFlat(subs, i + 1, f, indentation, line)
    else
      assert subs[i] in subs;
      var r := Print(subs[i], f, indentation, line);
      var next := r.line + (if i < |subs| - 1 then f.symbols.elementSeparator else "");
      var rest := PrintFlat(subs, i + 1, f, indentation, next);
      Printed(r.written + rest.written, rest.line)
  }

  /**
   * The children of a broken group from index `i` on: each child that is not
   * deleted starts an indented line, is followed by the trimmed separator
   * unless it is the last child, and ends its line.
   */
  function PrintBroken(subs: seq<Token>, i: nat, f: DumpFormat, indentation: int): string
    requires i <= |subs|
    decreases subs, |subs| - i
  {
    if i == |subs| then ""
    else if IsDeleted(subs[i]) then PrintBroken(subs, i + 1, f, indentation)
    else
      assert subs[i] in subs;
      var r := Print(subs[i], f, indentation, Extensions.Indented("", f.symbols.indentationCharacters, indentation));
      var last := r.line + (if i < |subs| - 1 then Trimmed(f.symbols.elementSeparator) else "");
      r.written + last + "\n" + PrintBroken(subs, i + 1, f, indentation)
  }

  /** The text of a token followed by the terminator. */
  function Render(t: Token, f: DumpFormat, terminator: string): string {
    var r := Print(t, f, 0, "");
    r.written + r.line + terminator
  }

  // ---------------------------------------------------------------------------
  // One-line text
  // ---------------------------------------------------------------------------

  /** A token written entirely on one line, with `sep` after every child but the last. */
  function Flat(t: Token, sep: string): string
    decreases t, 0
  {
    match t
    case Diff(side) => if side.Some? then Flat(side.value, sep) else ""
    case Filtered => ""
    case Group(prefix, subs, suffix) => prefix + FlatFrom(subs, 0, sep) + suffix
    case Pair(first, separator, second) =>
      (if first.Some? then Flat(first.value, sep) else "") + separator + Flat(second, sep)
    case Value(text) => text
  }

  function FlatFrom(subs: seq<Token>, i: nat, sep: string): string
    requires i <= |subs|
    decreases subs, |subs| - i
  {
    if i == |subs| then ""
    else if IsDeleted(subs[i]) then FlatFrom(subs, i + 1, sep)
    else
      assert subs[i] in subs;
      Flat(subs[i], sep) + (if i < |subs| - 1 then sep else "") + FlatFrom(subs, i + 1, sep)
  }

  /** A token's one-line text is never wider than its width, which also counts what is not printed. */
  lemma {:induction false} FlatWithinWidth(t: Token, sep: string)
    ensures |Flat(t, sep)| <= Width(t, sep)
    decreases t, 0
  {
    match t
    case Diff(side) =>
      if side.Some? {
        FlatWithinWidth(side.value, sep);
      }
    case Filtered =>
    case Group(prefix, subs, suffix) =>
      FlatFromWithinWidth(subs, 0, sep);
      assert subs[0..] == subs;
    case Pair(first, separator, second) =>
      if first.Some? {
        FlatWithinWidth(first.value, sep);
      }
      FlatWithinWidth(second, sep);
    case Value(_) =>
  }

  lemma {:induction false} FlatFromWithinWidth(subs: seq<Token>, i: nat, sep: string)
    requires i <= |subs|
    ensures |FlatFrom(subs, i, sep)| <= TailWidth(subs, i, sep)
    decreases subs, |subs| - i
  {
    if i < |subs| {
      TailWidthStep(subs, i, sep);
      FlatFromWithinWidth(subs, i + 1, sep);
      assert subs[i] in subs;
      FlatWithinWidth(subs[i], sep);
    }
  }

  /**
   * A token whose width fits in what is left of the line (with a positive
   * line width) writes nothing and extends the line by its one-line text.
   */
  lemma {:induction false} PrintNarrow(t: Token, f: DumpFormat, indentation: int, line: string)
    requires f.maxLineWidth >= 1 && |line| + Width(t, f.symbols.elementSeparator) <= f.maxLineWidth
    ensures Print(t, f, indentation, line) == Printed("", line + Flat(t, f.symbols.elementSeparator))
    decreases t, 1
  {
    match t
    case Diff(side) =>
      if side.Some? {
        PrintNarrow(side.value, f, indentation, line);
      }
    case Filtered =>
    case Group(_, _, _) =>
      PrintNarrowGroup(t, f, indentation, line);
    case Pair(_, _, _) =>
      PrintNarrowPair(t, f, indentation, line);
    case Value(_) =>
  }

  lemma {:induction false} PrintNarrowGroup(t: Token, f: DumpFormat, indentation: int, line: string)
    requires t.Group? && f.maxLineWidth >= 1 && |line| + Width(t, f.symbols.elementSeparator) <= f.maxLineWidth
    ensures Print(t, f, indentation, line) == Printed("", line + Flat(t, f.symbols.elementSeparator))
    decreases t, 0
  {
    var sep := f.symbols.elementSeparator;
    var Group(prefix, subs, suffix) := t;
    GroupFits(prefix, subs, suffix, f.maxLineWidth - |line|, sep);
    assert SingleLine(subs, t, f, line);
    var inner := PrintFlat(subs, 0, f, indentation + 1, line + prefix);
    assert Print(t, f, indentation, line) == Printed(inner.written, inner.line + suffix);
    assert subs[0..] == subs;
    PrintFlatNarrow(subs, 0, f, indentation + 1, line + prefix);
    assert inner == Printed("", line + prefix + FlatFrom(subs, 0, sep));
    assert line + prefix + FlatFrom(subs, 0, sep) + suffix == line + Flat(t, sep);
  }

  lemma {:induction false} PrintNarrowPair(t: Token, f: DumpFormat, indentation: int, line: string)
    requires t.Pair? && f.maxLineWidth >= 1 && |line| + Width(t, f.symbols.elementSeparator) <= f.maxLineWidth
    ensures Print(t, f, indentation, line) == Printed("", line + Flat(t, f.symbols.elementSeparator))
    decreases t, 0
  {
    var sep := f.symbols.elementSeparator;
    var Pair(first, separator, second) := t;
    var a := if first.Some? then Print(first.value, f, indentation, line) else Printed("", line);
    var flatFirst := if first.Some? then Flat(first.value, sep) else "";
    if first.Some? {
      PrintNarrow(first.value, f, indentation, line);
      FlatWithinWidth(first.value, sep);
    }
    assert a == Printed("", line + flatFirst);
    PrintNarrow(second, f, indentation, a.line + separator);
    assert a.line + separator + Flat(second, sep) == line + Flat(t, sep);
  }

  lemma {:induction false} PrintFlatNarrow(subs: seq<Token>, i: nat, f: DumpFormat, indentation: int, line: string)
    requires i <= |subs|
    requires f.maxLineWidth >= 1 && |line| + TailWidth(subs, i, f.symbols.elementSeparator) <= f.maxLineWidth
    ensures PrintFlat(subs, i, f, indentation, line) == Printed("", line + FlatFrom(subs, i, f.symbols.elementSeparator))
    decreases subs, |subs| - i
  {
    var sep := f.symbols.elementSeparator;
    if i < |subs| {
      TailWidthStep(subs, i, sep);
      assert subs[i] in subs;
      if IsDeleted(subs[i]) {
        PrintFlatNarrow(subs, i + 1, f, indentation, line);
      } else {
        PrintNarrow(subs[i], f, indentation, line);
        FlatWithinWidth(subs[i], sep);
        var next := line + Flat(subs[i], sep) + (if i < |subs| - 1 then sep else "");
        PrintFlatNarrow(subs, i + 1, f, indentation, next);
        assert next + FlatFrom(subs, i + 1, sep) == line + FlatFrom(subs, i, sep);
      }
    }
  }

  /**
   * A group writes nothing, staying on the current line, exactly when it has
   * no children or the line width is positive and the whole group fits in
   * what is left of the line; otherwise it writes at least one line break.
   */
  lemma GroupLayout(prefix: string, subs: seq<Token>, suffix: string, f: DumpFormat, indentation: int, line: string)
    ensures var t := Group(prefix, subs, suffix);
      var single := subs == [] || (f.maxLineWidth >= 1 && |line| + Width(t, f.symbols.elementSeparator) <= f.maxLineWidth);
      && (single ==> Print(t, f, indentation, line) == Printed("", line + Flat(t, f.symbols.elementSeparator)))
      && (!single ==> '\n' in Print(t, f, indentation, line).written)
  {
    var t := Group(prefix, subs, suffix);
    var sep := f.symbols.elementSeparator;
    GroupFits(prefix, subs, suffix, f.maxLineWidth - |line|, sep);
    if subs == [] {
      assert Flat(t, sep) == prefix + suffix;
    } else if f.maxLineWidth >= 1 && |line| + Width(t, sep) <= f.maxLineWidth {
      PrintNarrow(t, f, indentation, line);
    } else {
      var w := Print(t, f, indentation, line).written;
      assert w == line + prefix + "\n" + PrintBroken(subs, 0, f, indentation + 1);
      assert w[|line + prefix|] == '\n';
    }
  }

  /** A token whose width fits a positive line width renders as its one-line text. */
  lemma RenderNarrow(t: Token, f: DumpFormat, terminator: string)
    requires f.maxLineWidth >= 1 && Width(t, f.symbols.elementSeparator) <= f.maxLineWidth
    ensures Render(t, f, terminator) == Flat(t, f.symbols.elementSeparator) + terminator
  {
    PrintNarrow(t, f, 0, "");
    assert "" + Flat(t, f.symbols.elementSeparator) == Flat(t, f.symbols.elementSeparator);
  }

  /** What a deleted child is makes no difference to a one-line group: it is never printed. */
  lemma {:induction false} PrintFlatIgnoresDeleted(subs: seq<Token>, k: nat, d: Token, i: nat, f: DumpFormat, indentation: int, line: string)
    requires k < |subs| && i <= |subs| && IsDeleted(subs[k]) && IsDeleted(d)
    ensures PrintFlat(subs[k := d], i, f, indentation, line) == PrintFlat(subs, i, f, indentation, line)
    decreases |subs| - i
  {
    if i < |subs| {
      var subs' := subs[k := d];
      if IsDeleted(subs[i]) {
        PrintFlatIgnoresDeleted(subs, k, d, i + 1, f, indentation, line);
      } else {
        var r := Print(subs[i], f, indentation, line);
        var next := r.line + (if i < |subs| - 1 then f.symbols.elementSeparator else "");
        PrintFlatIgnoresDeleted(subs, k, d, i + 1, f, indentation, next);
      }
    }
  }

  /** What a deleted child is makes no difference to a broken group: it gets no line. */
  lemma {:induction false} PrintBrokenIgnoresDeleted(subs: seq<Token>, k: nat, d: Token, i: nat, f: DumpFormat, indentation: int)
    requires k < |subs| && i <= |subs| && IsDeleted(subs[k]) && IsDeleted(d)
    ensures PrintBroken(subs[k := d], i, f, indentation) == PrintBroken(subs, i, f, indentation)
    decreases |subs| - i
  {
    if i < |subs| {
      var subs' := subs[k := d];
      PrintBrokenIgnoresDeleted(subs, k, d, i + 1, f, indentation);
      if i == k {
        assert PrintBroken(subs', i, f, indentation) == PrintBroken(subs', i + 1, f, indentation);
      } else {
        assert subs'[i] == subs[i] && |subs'| == |subs|;
      }
    }
  }

  // ---------------------------------------------------------------------------
  // Lines
  // ---------------------------------------------------------------------------

  /** Swift's `split(separator: "\n")`: the non-empty pieces between line breaks. */
  function SplitLines(s: string): (r: seq<string>)
    ensures forall k :: 0 <= k < |r| ==> r[k] != [] && '\n' !in r[k]
    decreases |s|
  {
    var i := Formatting.FirstIndexOf(s, '\n');
    var piece := if i == 0 then [] else [s[..i]];
    if i == |s| then piece else piece + SplitLines(s[i + 1..])
  }

  /** Lines joined with a line break between each two. */
  function JoinLines(lines: seq<string>): string {
    if lines == [] then ""
    else if |lines| == 1 then lines[0]
    else lines[0] + "\n" + JoinLines(lines[1..])
  }

  /** Splitting joined lines gives them back when none is empty or holds a line break. */
  lemma {:induction false} SplitJoin(lines: seq<string>)
    requires forall k :: 0 <= k < |lines| ==> lines[k] != [] && '\n' !in lines[k]
    ensures SplitLines(JoinLines(lines)) == lines
  {
    if lines == [] {
      Formatting.FirstIndexAt("", '\n', 0);
    } else if |lines| == 1 {
      Formatting.FirstIndexAt(lines[0], '\n', |lines[0]|);
      assert lines[0][..|lines[0]|] == lines[0];
    } else {
      var s := JoinLines(lines);
      var l := lines[0];
      assert s == l + ("\n" + JoinLines(lines[1..]));
      assert s[..|l|] == l && s[|l|] == '\n';
      Formatting.FirstIndexAt(s, '\n', |l|);
      assert s[|l| + 1..] == JoinLines(lines[1..]);
      SplitJoin(lines[1..]);
    }
  }

  /** The pieces hold every character of the text that is not a line break, in order. */
  lemma {:induction false} SplitKeepsText(s: string)
    ensures Extensions.Flatten(SplitLines(s)) == WithoutBreaks(s)
    decreases |s|
  {
    var i := Formatting.FirstIndexOf(s, '\n');
    var head := s[..i];
    var piece := if i == 0 then [] else [head];
    NoBreaksKept(head);
    FlattenPiece(head);
    if i == |s| {
      assert head == s;
      assert SplitLines(s) == piece;
    } else {
      var rest := s[i + 1..];
      var pieces := SplitLines(rest);
      assert SplitLines(s) == piece + pieces;
      SplitKeepsText(rest);
      FlattenAppend(piece, pieces);
      BreakDropped(s, i);
    }
  }

  /** Dropping the break characters of a text skips the one at `i`. */
  lemma BreakDropped(s: string, i: nat)
    requires i < |s| && s[i] == '\n' && '\n' !in s[..i]
    ensures WithoutBreaks(s) == s[..i] + WithoutBreaks(s[i + 1..])
  {
    var head, tail := s[..i], s[i..];
    assert s == head + tail;
    WithoutBreaksAppend(head, tail);
    NoBreaksKept(head);
    LeadingBreakDropped(tail);
    assert tail[1..] == s[i + 1..];
  }

  lemma LeadingBreakDropped(s: string)
    requires s != [] && s[0] == '\n'
    ensures WithoutBreaks(s) == WithoutBreaks(s[1..])
  {
  }

  lemma FlattenPiece(x: string)
    ensures Extensions.Flatten(if x == [] then [] else [x]) == x
  {
    if x != [] {
      assert [x][..0] == [];
    }
  }

  function WithoutBreaks(s: string): string {
    if s == [] then [] else (if s[0] == '\n' then [] else [s[0]]) + WithoutBreaks(s[1..])
  }

  lemma {:induction false} WithoutBreaksAppend(a: string, b: string)
    ensures WithoutBreaks(a + b) == WithoutBreaks(a) + WithoutBreaks(b)
  {
    if a != [] {
      assert (a + b)[1..] == a[1..] + b;
      WithoutBreaksAppend(a[1..], b);
    } else {
      assert a + b == b;
    }
  }

  lemma {:induction false} NoBreaksKept(s: string)
    requires '\n' !in s
    ensures WithoutBreaks(s) == s
  {
    if s != [] {
      NoBreaksKept(s[1..]);
    }
  }

  lemma {:induction false} FlattenAppend(a: seq<string>, b: seq<string>)
    ensures Extensions.Flatten(a + b) == Extensions.Flatten(a) + Extensions.Flatten(b)
    decreases |b|
  {
    if b == [] {
      assert a + b == a;
    } else {
      var init := b[..|b| - 1];
      assert (a + b)[..|a + b| - 1] == a + init;
      FlattenAppend(a, init);
    }
  }

  // ---------------------------------------------------------------------------
  // The line diff
  // ---------------------------------------------------------------------------

  type Step = EditScripts.Step<string>

  /** One output line of the diff: the line with the marker of its step. */
  function DiffLine(step: Step, sym: Symbols): string {
    match step
    case Removed(before) => Extensions.Indented(before, sym.diffRemovedLinePrefix, 1)
    case Inserted(after) => Extensions.Indented(after, sym.diffInsertedLinePrefix, 1)
    case Unchanged(before, _) => Extensions.Indented(before, sym.diffUnchangedLinePrefix, 1)
    case Replaced(before, _) => Extensions.Indented(before, sym.diffUnchangedLinePrefix, 1)
  }

  function DiffLines(steps: seq<Step>, sym: Symbols): (r: seq<string>)
    ensures |r| == |steps| && forall k :: 0 <= k < |steps| ==> r[k] == DiffLine(steps[k], sym)
  {
    seq(|steps|, k requires 0 <= k < |steps| => DiffLine(steps[k], sym))
  }

  /**
   * The original's `applyDiff`: walks both line lists under the edit script,
   * a removal before an insertion at the same cursors, and marks each line.
   */
  function ApplyDiff(olds: seq<string>, news: seq<string>, script: EditScripts.EditScript, sym: Symbols): seq<string>
    requires EditScripts.ValidScript(script, olds, news)
  {
    DiffLines(EditScripts.LineTrace(script, olds, news, 0, 0), sym)
  }

  /** The line trace from given cursors starts with a removal exactly when the old cursor is removed. */
  lemma LineTraceFirst(s: EditScripts.EditScript, olds: seq<string>, news: seq<string>, o: nat, n: nat)
    requires EditScripts.Synced(s, olds, news, o, n) && (o < |olds| || n < |news|)
    ensures var r := EditScripts.LineTrace(s, olds, news, o, n);
      r != [] && (r[0].Removed? <==> o in s.removals) && (r[0].Inserted? <==> o !in s.removals && n in s.insertions)
  {
  }

  predicate RemovalsBeforeInsertions(steps: seq<Step>) {
    forall k :: 0 <= k < |steps| - 1 && steps[k].Inserted? ==> !steps[k + 1].Removed?
  }

  /** An insertion is never directly followed by a removal: removals at a cursor come first. */
  lemma {:induction false} RemovalsFirst(s: EditScripts.EditScript, olds: seq<string>, news: seq<string>, o: nat, n: nat)
    requires EditScripts.Synced(s, olds, news, o, n)
    ensures RemovalsBeforeInsertions(EditScripts.LineTrace(s, olds, news, o, n))
    decreases |olds| - o + |news| - n
  {
    if o < |olds| || n < |news| {
      EditScripts.StepFacts(s, olds, news, o, n);
      var r := EditScripts.LineTrace(s, olds, news, o, n);
      var o', n' := if o in s.removals then o + 1 else if n in s.insertions then o else o + 1,
        if o in s.removals then n else n + 1;
      var rest := EditScripts.LineTrace(s, olds, news, o', n');
      assert r[1..] == rest;
      RemovalsFirst(s, olds, news, o', n');
      forall k | 0 <= k < |r| - 1 && r[k].Inserted?
        ensures !r[k + 1].Removed?
      {
        if k > 0 {
          assert r[k] == rest[k - 1] && r[k + 1] == rest[k];
        } else {
          assert o !in s.removals && o' == o;
          assert r[1] == rest[0];
          LineTraceFirst(s, olds, news, o', n');
        }
      }
    }
  }

  /** No marker is a prefix of another, so a marked line tells which kind it is. */
  predicate DistinctMarkers(sym: Symbols) {
    var rem, ins, unc := sym.diffRemovedLinePrefix, sym.diffInsertedLinePrefix, sym.diffUnchangedLinePrefix;
    && !(rem <= ins) && !(ins <= rem) && !(rem <= unc) && !(unc <= rem) && !(ins <= unc) && !(unc <= ins)
  }

  /** The old side of a diff: the removed and unchanged lines without their markers. */
  function OriginalLines(lines: seq<string>, sym: Symbols): seq<string> {
    if lines == [] then []
    else
      var l := lines[0];
      var rem, unc := sym.diffRemovedLinePrefix, sym.diffUnchangedLinePrefix;
      (if rem <= l then [l[|rem|..]] else if unc <= l then [l[|unc|..]] else []) + OriginalLines(lines[1..], sym)
  }

  /** The new side of a diff: the inserted and unchanged lines without their markers. */
  function UpdatedLines(lines: seq<string>, sym: Symbols): seq<string> {
    if lines == [] then []
    else
      var l := lines[0];
      var ins, unc := sym.diffInsertedLinePrefix, sym.diffUnchangedLinePrefix;
      (if ins <= l then [l[|ins|..]] else if unc <= l then [l[|unc|..]] else []) + UpdatedLines(lines[1..], sym)
  }

  /** A line without breaks, marked once, is the marker followed by the line. */
  lemma MarkedLine(l: string, p: string)
    requires '\n' !in l
    ensures Extensions.Indented(l, p, 1) == p + l
  {
    NoBreaksUnchanged(l, Extensions.Repeat(p, 1));
    assert Extensions.Repeat(p, 1) == p + Extensions.Repeat(p, 0);
  }

  lemma {:induction false} NoBreaksUnchanged(l: string, p: string)
    requires '\n' !in l
    ensures Extensions.AfterNewlines(l, p) == l
  {
    if l != [] {
      NoBreaksUnchanged(l[1..], p);
    }
  }

  /**
   * With distinct markers, the old side of the marked trace is the old lines
   * the trace consumes, and the new side the new lines it consumes.
   */
  lemma {:induction false} MarkedSides(steps: seq<Step>, sym: Symbols)
    requires DistinctMarkers(sym)
    requires forall k :: 0 <= k < |steps| ==> !steps[k].Replaced?
    requires forall k :: 0 <= k < |steps| && steps[k].Unchanged? ==> steps[k].before == steps[k].after
    requires StepsWithoutBreaks(steps)
    ensures OriginalLines(DiffLines(steps, sym), sym) == EditScripts.OldSide(steps)
    ensures UpdatedLines(DiffLines(steps, sym), sym) == EditScripts.NewSide(steps)
  {
    if steps != [] {
      var lines := DiffLines(steps, sym);
      assert lines[1..] == DiffLines(steps[1..], sym);
      MarkedSides(steps[1..], sym);
      var rem, ins, unc := sym.diffRemovedLinePrefix, sym.diffInsertedLinePrefix, sym.diffUnchangedLinePrefix;
      match steps[0]
      case Removed(before) =>
        MarkedLine(before, rem);
        PrefixOfMarked(ins, rem, before);
        PrefixOfMarked(unc, rem, before);
      case Inserted(after) =>
        MarkedLine(after, ins);
        PrefixOfMarked(rem, ins, after);
        PrefixOfMarked(unc, ins, after);
      case Unchanged(before, after) =>
        MarkedLine(before, unc);
        PrefixOfMarked(rem, unc, before);
        PrefixOfMarked(ins, unc, before);
    }
  }

  /** A marker that is not a prefix of `q` (nor `q` of it) is not a prefix of a line marked with `q`. */
  lemma PrefixOfMarked(p: string, q: string, l: string)
    requires !(p <= q) && !(q <= p)
    ensures !(p <= q + l)
  {
    if |p| <= |q| {
      assert (q + l)[..|p|] == q[..|p|];
    } else {
      assert (q + l)[..|q|] == q;
    }
  }

  /**
   * With distinct markers and lines without breaks, the marked diff gives
   * back the old lines as its old side and the new lines as its new side.
   */
  lemma ApplyDiffSides(olds: seq<string>, news: seq<string>, script: EditScripts.EditScript, sym: Symbols)
    requires EditScripts.ValidScript(script, olds, news) && DistinctMarkers(sym)
    requires forall k :: 0 <= k < |olds| ==> '\n' !in olds[k]
    requires forall k :: 0 <= k < |news| ==> '\n' !in news[k]
    ensures OriginalLines(ApplyDiff(olds, news, script, sym), sym) == olds
    ensures UpdatedLines(ApplyDiff(olds, news, script, sym), sym) == news
  {
    var steps := EditScripts.LineTrace(script, olds, news, 0, 0);
    EditScripts.LineTraceConsumesAll(script, olds, news, 0, 0);
    LineStepsFrom(script, olds, news, 0, 0);
    MarkedSides(steps, sym);
    assert olds[0..] == olds && news[0..] == news;
  }

  /** No line a step carries holds a line break. */
  predicate StepsWithoutBreaks(steps: seq<Step>) {
    forall k :: 0 <= k < |steps| ==>
      (!steps[k].Inserted? ==> '\n' !in steps[k].before) && (!steps[k].Removed? ==> '\n' !in steps[k].after)
  }

  /** Every step of the line trace carries lines taken from the two lists. */
  lemma {:induction false} LineStepsFrom(s: EditScripts.EditScript, olds: seq<string>, news: seq<string>, o: nat, n: nat)
    requires EditScripts.Synced(s, olds, news, o, n)
    requires forall k :: 0 <= k < |olds| ==> '\n' !in olds[k]
    requires forall k :: 0 <= k < |news| ==> '\n' !in news[k]
    ensures StepsWithoutBreaks(EditScripts.LineTrace(s, olds, news, o, n))
    decreases |olds| - o + |news| - n
  {
    if o < |olds| || n < |news| {
      EditScripts.StepFacts(s, olds, news, o, n);
      var r := EditScripts.LineTrace(s, olds, news, o, n);
      var o', n' := if o in s.removals then o + 1 else if n in s.insertions then o else o + 1,
        if o in s.removals then n else n + 1;
      var rest := EditScripts.LineTrace(s, olds, news, o', n');
      assert r[1..] == rest;
      LineStepsFrom(s, olds, news, o', n');
      forall k | 0 <= k < |r|
        ensures (!r[k].Inserted? ==> '\n' !in r[k].before) && (!r[k].Removed? ==> '\n' !in r[k].after)
      {
        if k > 0 {
          assert r[k] == rest[k - 1];
        } else if o in s.removals {
          assert r[0] == EditScripts.Removed(olds[o]);
        } else if n in s.insertions {
          assert r[0] == EditScripts.Inserted(news[n]);
        } else {
          assert r[0] == EditScripts.Unchanged(olds[o], news[n]);
        }
      }
    }
  }

  // ---------------------------------------------------------------------------
  // Dumping to a string
  // ---------------------------------------------------------------------------

  /** A side of the tree, tokenized from the root and summarized, as text. */
  function SideText(x: Limns.Limn, f: DumpFormat, dir: Undiffing.Direction, terminator: string): string {
    Render(Summaries.Process(Tokenizing.Tokenize(x, f, dir, true), f, true), f, terminator)
  }

  /** Both sides rendered, split into lines, walked under the line edit script and joined again. */
  function PrintDiff(olds: seq<string>, news: seq<string>, script: EditScripts.EditScript, sym: Symbols, terminator: string): string
    requires EditScripts.ValidScript(script, olds, news)
  {
    JoinLines(ApplyDiff(olds, news, script, sym)) + terminator
  }

  /**
   * The original's `stringDump`: a tree with diffs is written as the line
   * diff of its two sides, with `script` the line edit script between them;
   * any other tree as its original side.
   */
  function StringDump(x: Limns.Limn, f: DumpFormat, script: EditScripts.EditScript): string
    requires Diffing.ContainsDiff(x) ==>
      EditScripts.ValidScript(script, SplitLines(SideText(x, f, Undiffing.ToOriginal, "")), SplitLines(SideText(x, f, Undiffing.ToUpdate, "")))
  {
    if Diffing.ContainsDiff(x) then
      PrintDiff(SplitLines(SideText(x, f, Undiffing.ToOriginal, "")), SplitLines(SideText(x, f, Undiffing.ToUpdate, "")),
        script, f.symbols, "")
    else
      SideText(x, f, Undiffing.ToOriginal, "")
  }

  /** Markers that are not empty and hold no line break, so that marked lines survive splitting. */
  predicate LineMarkers(sym: Symbols) {
    && DistinctMarkers(sym)
    && '\n' !in sym.diffRemovedLinePrefix && '\n' !in sym.diffInsertedLinePrefix && '\n' !in sym.diffUnchangedLinePrefix
  }

  /**
   * The dump of a tree with diffs holds both sides: its lines read back as
   * the lines of the original side's dump and as those of the updated side's.
   */
  lemma StringDumpSides(x: Limns.Limn, f: DumpFormat, script: EditScripts.EditScript)
    requires Diffing.ContainsDiff(x) && LineMarkers(f.symbols)
    requires EditScripts.ValidScript(script, SplitLines(SideText(x, f, Undiffing.ToOriginal, "")), SplitLines(SideText(x, f, Undiffing.ToUpdate, "")))
    ensures OriginalLines(SplitLines(StringDump(x, f, script)), f.symbols) == SplitLines(SideText(x, f, Undiffing.ToOriginal, ""))
    ensures UpdatedLines(SplitLines(StringDump(x, f, script)), f.symbols) == SplitLines(SideText(x, f, Undiffing.ToUpdate, ""))
  {
    var olds := SplitLines(SideText(x, f, Undiffing.ToOriginal, ""));
    var news := SplitLines(SideText(x, f, Undiffing.ToUpdate, ""));
    var out := ApplyDiff(olds, news, script, f.symbols);
    ApplyDiffSides(olds, news, script, f.symbols);
    MarkedLinesSplit(olds, news, script, f.symbols);
    SplitJoin(out);
    assert StringDump(x, f, script) == JoinLines(out);
  }

  /** Marked lines are neither empty nor hold a line break. */
  lemma MarkedLinesSplit(olds: seq<string>, news: seq<string>, script: EditScripts.EditScript, sym: Symbols)
    requires EditScripts.ValidScript(script, olds, news) && LineMarkers(sym)
    requires forall k :: 0 <= k < |olds| ==> olds[k] != [] && '\n' !in olds[k]
    requires forall k :: 0 <= k < |news| ==> news[k] != [] && '\n' !in news[k]
    ensures var out := ApplyDiff(olds, news, script, sym);
      forall k :: 0 <= k < |out| ==> out[k] != [] && '\n' !in out[k]
  {
    var steps := EditScripts.LineTrace(script, olds, news, 0, 0);
    var out := ApplyDiff(olds, news, script, sym);
    LineStepsNonEmpty(script, olds, news, 0, 0);
    LineStepsFrom(script, olds, news, 0, 0);
    forall k | 0 <= k < |out|
      ensures out[k] != [] && '\n' !in out[k]
    {
      var step := steps[k];
      var p := match step
        case Removed(_) => sym.diffRemovedLinePrefix
        case Inserted(_) => sym.diffInsertedLinePrefix
        case _ => sym.diffUnchangedLinePrefix;
      var l := if step.Inserted? then step.after else step.before;
      assert l != [] && '\n' !in l;
      MarkedLine(l, p);
      assert out[k] == p + l;
    }
  }

  /** No line a step carries is empty. */
  predicate NonEmptySteps(steps: seq<Step>) {
    forall k :: 0 <= k < |steps| ==> (!steps[k].Inserted? ==> steps[k].before != []) && (!steps[k].Removed? ==> steps[k].after != [])
  }

  /** Every step of the line trace carries non-empty lines when the lists hold none that are empty. */
  lemma {:induction false} LineStepsNonEmpty(s: EditScripts.EditScript, olds: seq<string>, news: seq<string>, o: nat, n: nat)
    requires EditScripts.Synced(s, olds, news, o, n)
    requires forall k :: 0 <= k < |olds| ==> olds[k] != []
    requires forall k :: 0 <= k < |news| ==> news[k] != []
    ensures NonEmptySteps(EditScripts.LineTrace(s, olds, news, o, n))
    decreases |olds| - o + |news| - n
  {
    if o < |olds| || n < |news| {
      EditScripts.StepFacts(s, olds, news, o, n);
      var r := EditScripts.LineTrace(s, olds, news, o, n);
      var o', n' := if o in s.removals then o + 1 else if n in s.insertions then o else o + 1,
        if o in s.removals then n else n + 1;
      var rest := EditScripts.LineTrace(s, olds, news, o', n');
      assert r[1..] == rest;
      LineStepsNonEmpty(s, olds, news, o', n');
      forall k | 0 <= k < |r|
        ensures (!r[k].Inserted? ==> r[k].before != []) && (!r[k].Removed? ==> r[k].after != [])
      {
        if k > 0 {
          assert r[k] == rest[k - 1];
        } else if o in s.removals {
          assert r[0] == EditScripts.Removed(olds[o]);
        } else if n in s.insertions {
          assert r[0] == EditScripts.Inserted(news[n]);
        } else {
          assert r[0] == EditScripts.Unchanged(olds[o], news[n]);
        }
      }
    }
  }
}
