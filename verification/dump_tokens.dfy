/**
 * The layout tokens a dump is built from, the output format, and the
 * measurements the printer takes of tokens: width, whether a token fits in
 * the space left on a line, and whether it holds, is, or wraps a diff,
 * deletion or filtered child.
 *
 * The format's textual symbols are `printf`-style templates in the original;
 * here every template is the function from its arguments to the text it
 * produces, so that any set of symbols can be described and the default set
 * is spelled out once.
 */
module DumpTokens {
  import opened Wrappers
  import Formatting
  import KeyValues

  // ---------------------------------------------------------------------------
  // Output format
  // ---------------------------------------------------------------------------

  datatype Symbols = Symbols(
    classPrefix: string -> string,
    classSuffix: string -> string,
    collectionPrefix: string,
    collectionIndex: int -> string,
    collectionSuffix: string,
    dictionaryPrefix: string,
    dictionaryEmpty: string,
    dictionarySuffix: string,
    enumCase: (string, string) -> string,
    enumWithAVPrefix: (string, string) -> string,
    enumWithAVSuffix: (string, string) -> string,
    setPrefix: string,
    setSuffix: string,
    structPrefix: string -> string,
    structSuffix: string -> string,
    tuplePrefix: string,
    tupleSuffix: string,
    diffInsertedLinePrefix: string,
    diffRemovedLinePrefix: string,
    diffUnchangedLinePrefix: string,
    nameValueSeparator: string,
    elementSeparator: string,
    indentationCharacters: string,
    nilValue: string,
    omittedUnresolved: string,
    omittedMaxDepthExceeded: string,
    omittedRefCycleDetected: string,
    propertyLabel: string -> string,
    summaryEntryFiltered: int -> string,
    summaryEntrySkipped: int -> string,
    summaryEntryUnchanged: int -> string,
    summarySingleEntry: string -> string,
    summaryDualEntry: (string, string) -> string)

  datatype DumpFormat = DumpFormat(
    collectionIndexMinItems: int,
    maxItems: int,
    maxLineWidth: int,
    symbols: Symbols,
    typeNameComponents: Formatting.Components)

  /** The library's default symbols, each template applied to its arguments. */
  const DefaultSymbols: Symbols := Symbols(
    classPrefix := name => name + "(",
    classSuffix := address => ") @ " + address,
    collectionPrefix := "[",
    collectionIndex := i => "." + KeyValues.IntDescription(i),
    collectionSuffix := "]",
    dictionaryPrefix := "[",
    dictionaryEmpty := "[:]",
    dictionarySuffix := "]",
    enumCase := (caseName, typeName) => typeName + "." + caseName,
    enumWithAVPrefix := (caseName, typeName) => typeName + "." + caseName + "(",
    enumWithAVSuffix := (caseName, typeName) => ")",
    setPrefix := "Set([",
    setSuffix := "])",
    structPrefix := name => name + "(",
    structSuffix := name => ")",
    tuplePrefix := "(",
    tupleSuffix := ")",
    diffInsertedLinePrefix := "+ ",
    diffRemovedLinePrefix := "- ",
    diffUnchangedLinePrefix := "  ",
    nameValueSeparator := ": ",
    elementSeparator := ", ",
    indentationCharacters := "    ",
    nilValue := "nil",
    omittedUnresolved := "?",
    omittedMaxDepthExceeded := "…",
    omittedRefCycleDetected := "… (skipped due to reference cycle)",
    propertyLabel := name => name,
    summaryEntryFiltered := n => KeyValues.IntDescription(n) + " filtered",
    summaryEntrySkipped := n => KeyValues.IntDescription(n) + " more",
    summaryEntryUnchanged := n => KeyValues.IntDescription(n) + " unchanged",
    summarySingleEntry := entry => "… (" + entry + ")",
    summaryDualEntry := (first, second) => "… (" + first + " with " + second + ")")

  /** The largest value of the original's 64-bit `Int`, the default for unbounded settings. */
  const IntMax: int := 0x7FFF_FFFF_FFFF_FFFF

  /** The default format: every item, one child per line, no collection indices, generic parameters kept. */
  const DefaultFormat: DumpFormat := DumpFormat(
    collectionIndexMinItems := IntMax,
    maxItems := IntMax,
    maxLineWidth := 0,
    symbols := DefaultSymbols,
    typeNameComponents := Formatting.Components(Formatting.GenericTypeParameterNames))

  // ---------------------------------------------------------------------------
  // Tokens
  // ---------------------------------------------------------------------------

  /**
   * The layout tree of a dump. `Diff(None)` marks a side of a diff that does
   * not exist (a deletion, seen from that side); `Filtered` a child the
   * filter removed.
   */
  datatype Token =
    | Diff(side: Option<Token>)
    | Filtered
    | Group(prefix: string, subtokens: seq<Token>, suffix: string)
    | Pair(first: Option<Token>, separator: string, second: Token)
    | Value(text: string)

  /** Whether a diff token is anywhere inside, through groups, pairs and diff sides. */
  predicate ContainsDiff(t: Token) {
    match t
    case Diff(_) => true
    case Filtered => false
    case Group(_, subs, _) => exists i :: 0 <= i < |subs| && ContainsDiff(subs[i])
    case Pair(first, _, second) => (first.Some? && ContainsDiff(first.value)) || ContainsDiff(second)
    case Value(_) => false
  }

  /** A missing diff side, possibly as the value of a pair. */
  predicate IsDeleted(t: Token) {
    match t
    case Diff(side) => side.None?
    case Pair(_, _, second) => IsDeleted(second)
    case _ => false
  }

  /** A filtered child, possibly inside a diff side or as the value of a pair. */
  predicate IsFiltered(t: Token) {
    match t
    case Diff(side) => side.Some? && IsFiltered(side.value)
    case Filtered => true
    case Pair(_, _, second) => IsFiltered(second)
    case _ => false
  }

  /**
   * The number of characters a token takes on one line, with `sep` between
   * the children of a group. Missing sides and filtered children take none.
   */
  function Width(t: Token, sep: string): nat
    decreases t, 1
  {
    match t
    case Diff(side) => if side.Some? then Width(side.value, sep) else 0
    case Filtered => 0
    case Group(prefix, subs, suffix) =>
      |prefix| + SumWidths(subs, sep) + Separators(|subs|) * |sep| + |suffix|
    case Pair(first, separator, second) =>
      (if first.Some? then Width(first.value, sep) else 0) + |separator| + Width(second, sep)
    case Value(text) => |text|
  }

  /** How many separators sit between `n` children. */
  function Separators(n: nat): nat {
    if n == 0 then 0 else n - 1
  }

  function SumWidths(ts: seq<Token>, sep: string): nat
    decreases ts, 0
  {
    if ts == [] then 0
    else
      assert ts[0] in ts;
      Width(ts[0], sep) + SumWidths(ts[1..], sep)
  }

  /**
   * Whether a token fits in `available` columns. A group adds up its prefix
   * and suffix, then each child and the separator after it, giving up as
   * soon as the running total passes the space; any other token must be
   * strictly narrower than the space.
   */
  predicate Fits(t: Token, available: int, sep: string) {
    match t
    case Diff(side) =>
      if side.Some? then Fits(side.value, available, sep) else Width(t, sep) < available
    case Group(prefix, subs, suffix) =>
      |prefix| + |suffix| <= available && FitsFrom(subs, 0, |prefix| + |suffix|, available, sep)
    case _ => Width(t, sep) < available
  }

  /** The group loop from child `i` on, with `acc` columns already used. */
  predicate FitsFrom(subs: seq<Token>, i: nat, acc: int, available: int, sep: string)
    decreases |subs| - i
  {
    if i >= |subs| then true
    else
      var next := acc + Width(subs[i], sep) + (if i < |subs| - 1 then |sep| else 0);
      next <= available && FitsFrom(subs, i + 1, next, available, sep)
  }

  /** The columns the group loop still adds from child `i` on. */
  function TailWidth(subs: seq<Token>, i: nat, sep: string): nat
    requires i <= |subs|
  {
    SumWidths(subs[i..], sep) + Separators(|subs| - i) * |sep|
  }

  lemma TailWidthStep(subs: seq<Token>, i: nat, sep: string)
    requires i < |subs|
    ensures TailWidth(subs, i, sep) ==
      Width(subs[i], sep) + (if i < |subs| - 1 then |sep| else 0) + TailWidth(subs, i + 1, sep)
  {
    assert subs[i..][1..] == subs[i + 1..];
  }

  /** Since nothing has negative width, the loop succeeds exactly when its final total fits. */
  lemma {:induction false} FitsFromTotal(subs: seq<Token>, i: nat, acc: int, available: int, sep: string)
    requires i <= |subs|
    ensures (acc <= available && FitsFrom(subs, i, acc, available, sep)) <==>
      acc + TailWidth(subs, i, sep) <= available
    decreases |subs| - i
  {
    if i < |subs| {
      TailWidthStep(subs, i, sep);
      var next := acc + Width(subs[i], sep) + (if i < |subs| - 1 then |sep| else 0);
      FitsFromTotal(subs, i + 1, next, available, sep);
    } else {
      assert subs[i..] == [];
    }
  }

  /** A group fits exactly when its whole width does (non-strictly, unlike other tokens). */
  lemma GroupFits(prefix: string, subs: seq<Token>, suffix: string, available: int, sep: string)
    ensures Fits(Group(prefix, subs, suffix), available, sep) <==>
      Width(Group(prefix, subs, suffix), sep) <= available
  {
    FitsFromTotal(subs, 0, |prefix| + |suffix|, available, sep);
    assert subs[0..] == subs;
  }

  // ---------------------------------------------------------------------------
  // Reachable tokens
  // ---------------------------------------------------------------------------

  /** Every token inside `t`, `t` first, in pre-order. */
  function Tokens(t: Token): (r: seq<Token>)
    ensures r != [] && r[0] == t
    decreases t, 1
  {
    match t
    case Diff(side) => [t] + (if side.Some? then Tokens(side.value) else [])
    case Filtered => [t]
    case Group(_, subs, _) => [t] + TokensOf(subs)
    case Pair(first, _, second) => [t] + (if first.Some? then Tokens(first.value) else []) + Tokens(second)
    case Value(_) => [t]
  }

  function TokensOf(ts: seq<Token>): seq<Token>
    decreases ts, 0
  {
    if ts == [] then []
    else
      assert ts[0] in ts;
      Tokens(ts[0]) + TokensOf(ts[1..])
  }

  predicate HasDiffToken(ts: seq<Token>) {
    exists k :: 0 <= k < |ts| && ts[k].Diff?
  }

  lemma HasDiffAppend(a: seq<Token>, b: seq<Token>)
    ensures HasDiffToken(a + b) <==> HasDiffToken(a) || HasDiffToken(b)
  {
    if HasDiffToken(a + b) {
      var k :| 0 <= k < |a + b| && (a + b)[k].Diff?;
      if k >= |a| {
        assert b[k - |a|].Diff?;
      }
    }
    if HasDiffToken(b) {
      var k :| 0 <= k < |b| && b[k].Diff?;
      assert (a + b)[|a| + k].Diff?;
    }
    if HasDiffToken(a) {
      var k :| 0 <= k < |a| && a[k].Diff?;
      assert (a + b)[k].Diff?;
    }
  }

  /** A token holds a diff exactly when a diff token is among the tokens reachable from it. */
  lemma {:induction false} ContainsDiffReachable(t: Token)
    ensures ContainsDiff(t) <==> HasDiffToken(Tokens(t))
    decreases t, 1
  {
    match t
    case Diff(side) =>
      assert Tokens(t)[0].Diff?;
    case Filtered =>
    case Group(_, subs, _) =>
      HasDiffAppend([t], TokensOf(subs));
      ContainsDiffReachableOf(subs);
    case Pair(first, _, second) =>
      var firsts := if first.Some? then Tokens(first.value) else [];
      assert Tokens(t) == [t] + firsts + Tokens(second);
      HasDiffAppend([t] + firsts, Tokens(second));
      HasDiffAppend([t], firsts);
      if first.Some? {
        ContainsDiffReachable(first.value);
      }
      ContainsDiffReachable(second);
    case Value(_) =>
  }

  lemma {:induction false} ContainsDiffReachableOf(ts: seq<Token>)
    ensures (exists i :: 0 <= i < |ts| && ContainsDiff(ts[i])) <==> HasDiffToken(TokensOf(ts))
    decreases ts, 0
  {
    if ts != [] {
      assert ts[0] in ts;
      ContainsDiffReachable(ts[0]);
      ContainsDiffReachableOf(ts[1..]);
      HasDiffAppend(Tokens(ts[0]), TokensOf(ts[1..]));
      if exists i :: 0 <= i < |ts| && ContainsDiff(ts[i]) {
        var i :| 0 <= i < |ts| && ContainsDiff(ts[i]);
        if i > 0 {
          assert ts[1..][i - 1] == ts[i];
        }
      }
      if exists i :: 0 <= i < |ts[1..]| && ContainsDiff(ts[1..][i]) {
        var i :| 0 <= i < |ts[1..]| && ContainsDiff(ts[1..][i]);
        assert ts[i + 1] == ts[1..][i];
      }
    }
  }
}
