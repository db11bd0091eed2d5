/**
 * Turning a value tree into layout tokens for one side of a dump: every
 * container becomes a group with its opening and closing symbols, every
 * labelled or keyed child a pair, every leaf a value, a filtered child the
 * filtered token, and a diff record the chosen side wrapped in a diff token.
 */
module Tokenizing {
  import opened Wrappers
  import Limns
  import Formatting
  import Undiffing
  import opened DumpTokens

  /** The one placeholder property a node holds when the depth limit cut it off. */
  predicate CutLabeled(ps: seq<Limns.LabeledLimn>, reason: Limns.OmittedReason) {
    ps == [Limns.OmittedProperty(reason)]
  }

  /** The tokens of one side of a tree; only the root spells out enum type names. */
  function Tokenize(x: Limns.Limn, f: DumpFormat, dir: Undiffing.Direction, isRootLevel: bool): (r: Token)
    ensures x.Omitted? ==> (r.Filtered? <==> x.reason == Limns.Filtered)
    ensures Limns.IsDiffStruct(x) ==> r.Diff?
    decreases x, 1
  {
    var sym := f.symbols;
    match x
    case Class(name, address, ps) =>
      var prefix := sym.classPrefix(Formatting.FormatTypeName(name, f.typeNameComponents));
      var suffix := sym.classSuffix(address);
      if CutLabeled(ps, Limns.MaxDepthExceeded) then Value(prefix + sym.omittedMaxDepthExceeded + suffix)
      else if CutLabeled(ps, Limns.ReferenceCycleDetected) then Value(prefix + sym.omittedRefCycleDetected + suffix)
      else Group(prefix, TokenizePairs(ps, f, dir), suffix)
    case Collection(es) =>
      if es == [Limns.Omitted(Limns.MaxDepthExceeded)] then
        Value(sym.collectionPrefix + sym.omittedMaxDepthExceeded + sym.collectionSuffix)
      else if |es| <= f.collectionIndexMinItems then
        Group(sym.collectionPrefix, TokenizeAll(es, f, dir), sym.collectionSuffix)
      else
        Group(sym.collectionPrefix, IndexedPairs(es, f, dir, 0), sym.collectionSuffix)
    case Dictionary(kvs) =>
      if kvs == [] then Value(sym.dictionaryEmpty)
      else if kvs == [Limns.OmittedPair(Limns.MaxDepthExceeded)] then
        var cut := sym.omittedMaxDepthExceeded;
        Value(sym.dictionaryPrefix + cut + sym.nameValueSeparator + cut + sym.dictionarySuffix)
      else Group(sym.dictionaryPrefix, TokenizeEntries(kvs, f, dir), sym.dictionarySuffix)
    case Enum(name, caseName, av) =>
      var typeName := if isRootLevel then Formatting.FormatTypeName(name, f.typeNameComponents) else "";
      var prefix := sym.enumWithAVPrefix(caseName, typeName);
      var suffix := sym.enumWithAVSuffix(caseName, typeName);
      if av.None? then Value(sym.enumCase(caseName, typeName))
      else if av.value.Tuple? then
        if CutLabeled(av.value.tupleElements, Limns.MaxDepthExceeded) then
          Value(prefix + sym.omittedMaxDepthExceeded + suffix)
        else Group(prefix, TokenizePairs(av.value.tupleElements, f, dir), suffix)
      else if av.value == Limns.Omitted(Limns.MaxDepthExceeded) then
        Value(prefix + sym.omittedMaxDepthExceeded + suffix)
      else Group(prefix, [Tokenize(av.value, f, dir, false)], suffix)
    case Optional(w) =>
      if w.Some? then Tokenize(w.value, f, dir, false) else Value(sym.nilValue)
    case Set(es) =>
      if es == [Limns.Omitted(Limns.MaxDepthExceeded)] then
        Value(sym.setPrefix + sym.omittedMaxDepthExceeded + sym.setSuffix)
      else Group(sym.setPrefix, TokenizeAll(es, f, dir), sym.setSuffix)
    case Struct(name, ps) =>
      if Limns.IsDiffStruct(x) then
        var side := Undiffing.Side(Limns.Decode(x).value, dir);
        if side.Some? then
          assert side.value < x by { SideSmaller(x, dir); }
          Diff(Some(Tokenize(side.value, f, dir, false)))
        else Diff(None)
      else
        var formatted := Formatting.FormatTypeName(name, f.typeNameComponents);
        var prefix := sym.structPrefix(formatted);
        var suffix := sym.structSuffix(formatted);
        if CutLabeled(ps, Limns.MaxDepthExceeded) then Value(prefix + sym.omittedMaxDepthExceeded + suffix)
        else Group(prefix, TokenizePairs(ps, f, dir), suffix)
    case Tuple(ps) =>
      if CutLabeled(ps, Limns.MaxDepthExceeded) then
        Value(sym.tuplePrefix + sym.omittedMaxDepthExceeded + sym.tupleSuffix)
      else Group(sym.tuplePrefix, TokenizePairs(ps, f, dir), sym.tupleSuffix)
    case Value(description) => Value(description)
    case Omitted(reason) =>
      match reason
      case Filtered => Filtered
      case MaxDepthExceeded => Value(sym.omittedMaxDepthExceeded)
      case ReferenceCycleDetected => Value(sym.omittedRefCycleDetected)
      case Unresolved => Value(sym.omittedUnresolved)
  }

  /** A side stored in a diff record is a smaller tree than the record. */
  lemma SideSmaller(x: Limns.Limn, dir: Undiffing.Direction)
    requires Limns.IsDiffStruct(x)
    requires Undiffing.Side(Limns.Decode(x).value, dir).Some?
    ensures Undiffing.Side(Limns.Decode(x).value, dir).value < x
  {
    var lbl := Undiffing.SideLabel(dir);
    var i := Limns.FirstIndexOfLabel(x.properties, lbl).value;
    assert x.properties[i] in x.properties;
  }

  /** Properties and tuple elements: label, separator, value. */
  function TokenizePairs(ps: seq<Limns.LabeledLimn>, f: DumpFormat, dir: Undiffing.Direction): (r: seq<Token>)
    ensures |r| == |ps|
    ensures forall i :: 0 <= i < |r| ==> r[i].Pair? && r[i].first == Some(Value(f.symbols.propertyLabel(ps[i].name)))
    decreases ps, 0
  {
    if ps == [] then []
    else
      assert ps[0] in ps;
      var p := Pair(Some(Value(f.symbols.propertyLabel(ps[0].name))), f.symbols.nameValueSeparator,
        Tokenize(ps[0].value, f, dir, false));
      [p] + TokenizePairs(ps[1..], f, dir)
  }

  function TokenizeAll(es: seq<Limns.Limn>, f: DumpFormat, dir: Undiffing.Direction): (r: seq<Token>)
    ensures |r| == |es|
    decreases es, 0
  {
    if es == [] then []
    else
      assert es[0] in es;
      [Tokenize(es[0], f, dir, false)] + TokenizeAll(es[1..], f, dir)
  }

  function TokenizeEntries(kvs: seq<Limns.KeyedLimn>, f: DumpFormat, dir: Undiffing.Direction): (r: seq<Token>)
    ensures |r| == |kvs|
    ensures forall i :: 0 <= i < |r| ==> r[i].Pair? && r[i].first.Some?
    decreases kvs, 0
  {
    if kvs == [] then []
    else
      assert kvs[0] in kvs && kvs[0].key < kvs[0];
      var p := Pair(Some(Tokenize(kvs[0].key, f, dir, false)), f.symbols.nameValueSeparator,
        Tokenize(kvs[0].value, f, dir, false));
      [p] + TokenizeEntries(kvs[1..], f, dir)
  }

  /**
   * Elements of a long collection, each labelled with its index. Deleted
   * elements get no label and do not advance the index, so the elements
   * present on this side are numbered consecutively from `index`.
   */
  function IndexedPairs(es: seq<Limns.Limn>, f: DumpFormat, dir: Undiffing.Direction, index: int): (r: seq<Token>)
    ensures |r| == |es|
    decreases es, 0
  {
    if es == [] then []
    else
      assert es[0] in es;
      var second := Tokenize(es[0], f, dir, false);
      if IsDeleted(second) then
        [Pair(None, "", second)] + IndexedPairs(es[1..], f, dir, index)
      else
        [Pair(Some(Value(f.symbols.collectionIndex(index))), f.symbols.nameValueSeparator, second)]
          + IndexedPairs(es[1..], f, dir, index + 1)
  }

  /** How many of the first `k` tokens are not deleted. */
  function LiveBefore(ts: seq<Token>, k: nat): nat
    requires k <= |ts|
  {
    if k == 0 then 0 else LiveBefore(ts, k - 1) + (if IsDeleted(ts[k - 1]) then 0 else 1)
  }

  lemma {:induction false} LiveBeforeCons(t: Token, ts: seq<Token>, k: nat)
    requires 1 <= k <= |ts| + 1
    ensures LiveBefore([t] + ts, k) == (if IsDeleted(t) then 0 else 1) + LiveBefore(ts, k - 1)
  {
    if k > 1 {
      LiveBeforeCons(t, ts, k - 1);
      assert ([t] + ts)[k - 1] == ts[k - 2];
    }
  }

  /** The pair at `k` holds the tokens of `es[k]`, labelled by its live position when not deleted. */
  predicate NumberedAt(r: seq<Token>, es: seq<Limns.Limn>, f: DumpFormat, dir: Undiffing.Direction, index: int, k: nat)
    requires k < |r| == |es|
  {
    && r[k].Pair?
    && r[k].second == Tokenize(es[k], f, dir, false)
    && (IsDeleted(r[k].second) ==> r[k].first.None?)
    && (!IsDeleted(r[k].second) ==>
          r[k].first == Some(Value(f.symbols.collectionIndex(index + LiveBefore(r, k)))))
  }

  /** The first pair, and the index the remaining ones start from. */
  lemma IndexedPairsHead(es: seq<Limns.Limn>, f: DumpFormat, dir: Undiffing.Direction, index: int)
    requires es != []
    ensures var r := IndexedPairs(es, f, dir, index);
      var second := Tokenize(es[0], f, dir, false);
      var next := if IsDeleted(second) then index else index + 1;
      && r == [r[0]] + IndexedPairs(es[1..], f, dir, next)
      && NumberedAt(r, es, f, dir, index, 0)
  {
  }

  /**
   * Each element keeps its own tokens as the pair's value; a deleted one has
   * no label, and the others are labelled with consecutive indices.
   */
  lemma {:induction false} IndexedPairsNumbering(es: seq<Limns.Limn>, f: DumpFormat, dir: Undiffing.Direction, index: int, k: nat)
    requires k < |es|
    ensures NumberedAt(IndexedPairs(es, f, dir, index), es, f, dir, index, k)
    decreases k
  {
    IndexedPairsHead(es, f, dir, index);
    if k > 0 {
      var r := IndexedPairs(es, f, dir, index);
      var next := if IsDeleted(Tokenize(es[0], f, dir, false)) then index else index + 1;
      var rest := IndexedPairs(es[1..], f, dir, next);
      IndexedPairsNumbering(es[1..], f, dir, next, k - 1);
      NumberedShift(r, es, f, dir, index, next, k);
    }
  }

  /** Numbering at `k - 1` after the first pair is numbering at `k` with it. */
  lemma NumberedShift(r: seq<Token>, es: seq<Limns.Limn>, f: DumpFormat, dir: Undiffing.Direction, index: int, next: int, k: nat)
    requires 0 < k < |r| == |es|
    requires next == if IsDeleted(r[0]) then index else index + 1
    requires r[0].Pair?
    requires NumberedAt(r[1..], es[1..], f, dir, next, k - 1)
    ensures NumberedAt(r, es, f, dir, index, k)
  {
    assert r == [r[0]] + r[1..];
    LiveBeforeCons(r[0], r[1..], k);
    assert r[k] == r[1..][k - 1] && es[k] == es[1..][k - 1];
  }

  // ---------------------------------------------------------------------------
  // Diffs in trees and in tokens
  // ---------------------------------------------------------------------------

  /** Whether a diff record sits anywhere in the tree, dictionary keys included. */
  predicate AnyDiff(x: Limns.Limn) {
    match x
    case Class(_, _, ps) => exists i :: 0 <= i < |ps| && AnyDiff(ps[i].value)
    case Collection(es) => exists i :: 0 <= i < |es| && AnyDiff(es[i])
    case Dictionary(kvs) => exists i :: 0 <= i < |kvs| && (AnyDiff(kvs[i].key) || AnyDiff(kvs[i].value))
    case Enum(_, _, av) => av.Some? && AnyDiff(av.value)
    case Optional(w) => w.Some? && AnyDiff(w.value)
    case Set(es) => exists i :: 0 <= i < |es| && AnyDiff(es[i])
    case Struct(n, ps) => n == Limns.DiffTypeName || exists i :: 0 <= i < |ps| && AnyDiff(ps[i].value)
    case Tuple(ps) => exists i :: 0 <= i < |ps| && AnyDiff(ps[i].value)
    case Value(_) => false
    case Omitted(_) => false
  }

  predicate SomeContainsDiff(ts: seq<Token>) {
    exists i :: 0 <= i < |ts| && ContainsDiff(ts[i])
  }

  /** The tokens of one side hold a diff token exactly when the tree holds a diff record. */
  lemma {:induction false} TokenizeContainsDiff(x: Limns.Limn, f: DumpFormat, dir: Undiffing.Direction, isRootLevel: bool)
    ensures ContainsDiff(Tokenize(x, f, dir, isRootLevel)) <==> AnyDiff(x)
    decreases x, 2
  {
    match x
    case Class(_, _, ps) => LabeledNodeDiff(x, f, dir, isRootLevel);
    case Collection(es) => ElementsNodeDiff(x, f, dir, isRootLevel);
    case Dictionary(kvs) => DictionaryNodeDiff(x, f, dir, isRootLevel);
    case Enum(_, _, av) =>
      if av.Some? && av.value.Tuple? {
        EnumTupleDiff(x, f, dir, isRootLevel);
      } else {
        EnumPayloadDiff(x, f, dir, isRootLevel);
      }
    case Optional(w) =>
      if w.Some? {
        TokenizeContainsDiff(w.value, f, dir, false);
      }
    case Set(es) => ElementsNodeDiff(x, f, dir, isRootLevel);
    case Struct(_, ps) =>
      if !Limns.IsDiffStruct(x) {
        LabeledNodeDiff(x, f, dir, isRootLevel);
      }
    case Tuple(ps) => LabeledNodeDiff(x, f, dir, isRootLevel);
    case Value(_) =>
    case Omitted(_) =>
  }

  /** Classes, plain structs and tuples: their properties decide. */
  lemma LabeledNodeDiff(x: Limns.Limn, f: DumpFormat, dir: Undiffing.Direction, isRootLevel: bool)
    requires x.Class? || (x.Struct? && !Limns.IsDiffStruct(x)) || x.Tuple?
    ensures ContainsDiff(Tokenize(x, f, dir, isRootLevel)) <==> AnyDiff(x)
    decreases x, 1
  {
    if Cut(x) {
      CutNoDiff(x, if x.Tuple? then x.tupleElements else x.properties);
      CutIsValue(x, f, dir, isRootLevel);
    } else {
      UncutNodeDiff(x, f, dir, isRootLevel);
    }
  }

  /** A class, plain struct or tuple written as a group holds a diff when one of its values does. */
  lemma UncutNodeDiff(x: Limns.Limn, f: DumpFormat, dir: Undiffing.Direction, isRootLevel: bool)
    requires x.Class? || (x.Struct? && !Limns.IsDiffStruct(x)) || x.Tuple?
    requires !Cut(x)
    ensures ContainsDiff(Tokenize(x, f, dir, isRootLevel)) <==> AnyDiff(x)
    decreases x, 0
  {
    var ps := if x.Tuple? then x.tupleElements else x.properties;
    PairsContainDiff(ps, f, dir);
    UncutIsGroup(x, f, dir, isRootLevel);
    PropertiesDecide(x);
    GroupContainsDiff(Tokenize(x, f, dir, isRootLevel));
  }

  /** A class, plain struct or tuple holds a diff record exactly when one of its values does. */
  lemma PropertiesDecide(x: Limns.Limn)
    requires x.Class? || (x.Struct? && !Limns.IsDiffStruct(x)) || x.Tuple?
    ensures var ps := if x.Tuple? then x.tupleElements else x.properties;
      AnyDiff(x) <==> exists i :: 0 <= i < |ps| && AnyDiff(ps[i].value)
  {
  }

  /** A group holds a diff token exactly when one of its subtokens does. */
  lemma GroupContainsDiff(t: Token)
    requires t.Group?
    ensures ContainsDiff(t) <==> SomeContainsDiff(t.subtokens)
  {
  }

  /**
   * Whether a class, struct or tuple is written as a single value: it holds
   * only the depth-limit placeholder, or (for a class) the reference-cycle one.
   */
  predicate Cut(x: Limns.Limn)
    requires x.Class? || x.Struct? || x.Tuple?
  {
    var ps := if x.Tuple? then x.tupleElements else x.properties;
    CutLabeled(ps, Limns.MaxDepthExceeded) || (x.Class? && CutLabeled(ps, Limns.ReferenceCycleDetected))
  }

  lemma CutNoDiff(x: Limns.Limn, ps: seq<Limns.LabeledLimn>)
    requires x.Class? || x.Struct? || x.Tuple?
    requires ps == (if x.Tuple? then x.tupleElements else x.properties)
    requires Cut(x)
    requires !Limns.IsDiffStruct(x)
    ensures !AnyDiff(x)
  {
    assert ps[0].value.Omitted?;
    assert !AnyDiff(ps[0].value);
  }

  lemma CutIsValue(x: Limns.Limn, f: DumpFormat, dir: Undiffing.Direction, isRootLevel: bool)
    requires x.Class? || (x.Struct? && !Limns.IsDiffStruct(x)) || x.Tuple?
    requires Cut(x)
    ensures Tokenize(x, f, dir, isRootLevel).Value?
  {
  }

  lemma UncutIsGroup(x: Limns.Limn, f: DumpFormat, dir: Undiffing.Direction, isRootLevel: bool)
    requires x.Class? || (x.Struct? && !Limns.IsDiffStruct(x)) || x.Tuple?
    requires !Cut(x)
    ensures var ps := if x.Tuple? then x.tupleElements else x.properties;
      var t := Tokenize(x, f, dir, isRootLevel);
      t.Group? && t.subtokens == TokenizePairs(ps, f, dir)
  {
  }

  /** Collections and sets: their elements decide. */
  lemma {:induction false} ElementsNodeDiff(x: Limns.Limn, f: DumpFormat, dir: Undiffing.Direction, isRootLevel: bool)
    requires x.Collection? || x.Set?
    ensures ContainsDiff(Tokenize(x, f, dir, isRootLevel)) <==> AnyDiff(x)
    decreases x, 0
  {
    var es := x.elements;
    if es == [Limns.Omitted(Limns.MaxDepthExceeded)] {
      assert !AnyDiff(es[0]);
    } else if x.Set? || |es| <= f.collectionIndexMinItems {
      AllContainDiff(es, f, dir);
      GroupContainsDiff(Tokenize(x, f, dir, isRootLevel));
    } else {
      IndexedContainDiff(es, f, dir, 0);
      GroupContainsDiff(Tokenize(x, f, dir, isRootLevel));
    }
  }

  /** Dictionaries: their keys and values decide. */
  lemma {:induction false} DictionaryNodeDiff(x: Limns.Limn, f: DumpFormat, dir: Undiffing.Direction, isRootLevel: bool)
    requires x.Dictionary?
    ensures ContainsDiff(Tokenize(x, f, dir, isRootLevel)) <==> AnyDiff(x)
    decreases x, 0
  {
    var kvs := x.keyValuePairs;
    if kvs == [Limns.OmittedPair(Limns.MaxDepthExceeded)] {
      assert !AnyDiff(kvs[0].key) && !AnyDiff(kvs[0].value);
    } else if kvs != [] {
      EntriesContainDiff(kvs, f, dir);
      GroupContainsDiff(Tokenize(x, f, dir, isRootLevel));
    }
  }

  /** Enums with a tuple payload: the tuple's values decide. */
  lemma {:induction false} EnumTupleDiff(x: Limns.Limn, f: DumpFormat, dir: Undiffing.Direction, isRootLevel: bool)
    requires x.Enum? && x.associatedValue.Some? && x.associatedValue.value.Tuple?
    ensures ContainsDiff(Tokenize(x, f, dir, isRootLevel)) <==> AnyDiff(x)
    decreases x, 0
  {
    var av := x.associatedValue.value;
    var ps := av.tupleElements;
    EnumTupleTokens(x, f, dir, isRootLevel);
    if CutLabeled(ps, Limns.MaxDepthExceeded) {
      assert ps[0].value.Omitted?;
      assert !AnyDiff(av);
    } else {
      PairsContainDiff(ps, f, dir);
      PropertiesDecide(av);
      GroupContainsDiff(Tokenize(x, f, dir, isRootLevel));
    }
  }

  /** Enums with any other payload: the payload decides. */
  lemma {:induction false} EnumPayloadDiff(x: Limns.Limn, f: DumpFormat, dir: Undiffing.Direction, isRootLevel: bool)
    requires x.Enum? && (x.associatedValue.Some? ==> !x.associatedValue.value.Tuple?)
    ensures ContainsDiff(Tokenize(x, f, dir, isRootLevel)) <==> AnyDiff(x)
    decreases x, 0
  {
    EnumTokens(x, f, dir, isRootLevel);
    var av := x.associatedValue;
    if av.Some? && av.value != Limns.Omitted(Limns.MaxDepthExceeded) {
      TokenizeContainsDiff(av.value, f, dir, false);
      var g := Tokenize(x, f, dir, isRootLevel);
      assert g.subtokens[0] == Tokenize(av.value, f, dir, false);
    }
  }

  /** An enum without a tuple payload is a plain value or a group around its payload's tokens. */
  lemma EnumTokens(x: Limns.Limn, f: DumpFormat, dir: Undiffing.Direction, isRootLevel: bool)
    requires x.Enum? && (x.associatedValue.Some? ==> !x.associatedValue.value.Tuple?)
    ensures var t := Tokenize(x, f, dir, isRootLevel);
      if x.associatedValue.None? || x.associatedValue.value == Limns.Omitted(Limns.MaxDepthExceeded) then t.Value?
      else t.Group? && t.subtokens == [Tokenize(x.associatedValue.value, f, dir, false)]
  {
  }

  /** An enum with a tuple payload is a cut value or a group of that tuple's pairs. */
  lemma EnumTupleTokens(x: Limns.Limn, f: DumpFormat, dir: Undiffing.Direction, isRootLevel: bool)
    requires x.Enum? && x.associatedValue.Some? && x.associatedValue.value.Tuple?
    ensures var ps := x.associatedValue.value.tupleElements;
      var t := Tokenize(x, f, dir, isRootLevel);
      if CutLabeled(ps, Limns.MaxDepthExceeded) then t.Value?
      else t.Group? && t.subtokens == TokenizePairs(ps, f, dir)
  {
  }

  lemma {:induction false} PairsContainDiff(ps: seq<Limns.LabeledLimn>, f: DumpFormat, dir: Undiffing.Direction)
    ensures SomeContainsDiff(TokenizePairs(ps, f, dir)) <==> exists i :: 0 <= i < |ps| && AnyDiff(ps[i].value)
    decreases ps, 0
  {
    if ps != [] {
      assert ps[0] in ps;
      var r := TokenizePairs(ps, f, dir);
      TokenizeContainsDiff(ps[0].value, f, dir, false);
      PairsContainDiff(ps[1..], f, dir);
      assert r[0].second == Tokenize(ps[0].value, f, dir, false);
      assert !ContainsDiff(r[0].first.value);
      ConsContainsDiff(r[0], TokenizePairs(ps[1..], f, dir));
      ShiftExists(ps);
    }
  }

  lemma {:induction false} AllContainDiff(es: seq<Limns.Limn>, f: DumpFormat, dir: Undiffing.Direction)
    ensures SomeContainsDiff(TokenizeAll(es, f, dir)) <==> exists i :: 0 <= i < |es| && AnyDiff(es[i])
    decreases es, 0
  {
    if es != [] {
      assert es[0] in es;
      TokenizeContainsDiff(es[0], f, dir, false);
      AllContainDiff(es[1..], f, dir);
      ConsContainsDiff(Tokenize(es[0], f, dir, false), TokenizeAll(es[1..], f, dir));
      ShiftExistsElements(es);
    }
  }

  lemma {:induction false} IndexedContainDiff(es: seq<Limns.Limn>, f: DumpFormat, dir: Undiffing.Direction, index: int)
    ensures SomeContainsDiff(IndexedPairs(es, f, dir, index)) <==> exists i :: 0 <= i < |es| && AnyDiff(es[i])
    decreases es, 0
  {
    if es != [] {
      assert es[0] in es;
      var second := Tokenize(es[0], f, dir, false);
      var next := if IsDeleted(second) then index else index + 1;
      var r := IndexedPairs(es, f, dir, index);
      TokenizeContainsDiff(es[0], f, dir, false);
      IndexedContainDiff(es[1..], f, dir, next);
      assert r[0].second == second;
      assert r[0].first.Some? ==> !ContainsDiff(r[0].first.value);
      ConsContainsDiff(r[0], IndexedPairs(es[1..], f, dir, next));
      ShiftExistsElements(es);
    }
  }

  lemma {:induction false} EntriesContainDiff(kvs: seq<Limns.KeyedLimn>, f: DumpFormat, dir: Undiffing.Direction)
    ensures SomeContainsDiff(TokenizeEntries(kvs, f, dir)) <==>
      exists i :: 0 <= i < |kvs| && (AnyDiff(kvs[i].key) || AnyDiff(kvs[i].value))
    decreases kvs, 0
  {
    if kvs != [] {
      assert kvs[0] in kvs && kvs[0].key < kvs[0];
      var r := TokenizeEntries(kvs, f, dir);
      TokenizeContainsDiff(kvs[0].key, f, dir, false);
      TokenizeContainsDiff(kvs[0].value, f, dir, false);
      EntriesContainDiff(kvs[1..], f, dir);
      assert r[0].first.value == Tokenize(kvs[0].key, f, dir, false);
      assert r[0].second == Tokenize(kvs[0].value, f, dir, false);
      ConsContainsDiff(r[0], TokenizeEntries(kvs[1..], f, dir));
      ShiftExistsEntries(kvs);
    }
  }

  lemma ConsContainsDiff(t: Token, ts: seq<Token>)
    ensures SomeContainsDiff([t] + ts) <==> ContainsDiff(t) || SomeContainsDiff(ts)
  {
    assert ([t] + ts)[0] == t;
    if SomeContainsDiff(ts) {
      var i :| 0 <= i < |ts| && ContainsDiff(ts[i]);
      assert ([t] + ts)[i + 1] == ts[i];
    }
    if SomeContainsDiff([t] + ts) {
      var i :| 0 <= i < |[t] + ts| && ContainsDiff(([t] + ts)[i]);
      if i > 0 {
        assert ts[i - 1] == ([t] + ts)[i];
      }
    }
  }

  lemma ShiftExists(ps: seq<Limns.LabeledLimn>)
    requires ps != []
    ensures (exists i :: 0 <= i < |ps| && AnyDiff(ps[i].value)) <==>
      AnyDiff(ps[0].value) || exists i :: 0 <= i < |ps[1..]| && AnyDiff(ps[1..][i].value)
  {
    if exists i :: 0 <= i < |ps| && AnyDiff(ps[i].value) {
      var i :| 0 <= i < |ps| && AnyDiff(ps[i].value);
      if i > 0 {
        assert ps[1..][i - 1] == ps[i];
      }
    }
    if exists i :: 0 <= i < |ps[1..]| && AnyDiff(ps[1..][i].value) {
      var i :| 0 <= i < |ps[1..]| && AnyDiff(ps[1..][i].value);
      assert ps[i + 1] == ps[1..][i];
    }
  }

  lemma ShiftExistsElements(es: seq<Limns.Limn>)
    requires es != []
    ensures (exists i :: 0 <= i < |es| && AnyDiff(es[i])) <==>
      AnyDiff(es[0]) || exists i :: 0 <= i < |es[1..]| && AnyDiff(es[1..][i])
  {
    if exists i :: 0 <= i < |es| && AnyDiff(es[i]) {
      var i :| 0 <= i < |es| && AnyDiff(es[i]);
      if i > 0 {
        assert es[1..][i - 1] == es[i];
      }
    }
    if exists i :: 0 <= i < |es[1..]| && AnyDiff(es[1..][i]) {
      var i :| 0 <= i < |es[1..]| && AnyDiff(es[1..][i]);
      assert es[i + 1] == es[1..][i];
    }
  }

  lemma ShiftExistsEntries(kvs: seq<Limns.KeyedLimn>)
    requires kvs != []
    ensures (exists i :: 0 <= i < |kvs| && (AnyDiff(kvs[i].key) || AnyDiff(kvs[i].value))) <==>
      (AnyDiff(kvs[0].key) || AnyDiff(kvs[0].value)) ||
      exists i :: 0 <= i < |kvs[1..]| && (AnyDiff(kvs[1..][i].key) || AnyDiff(kvs[1..][i].value))
  {
    if exists i :: 0 <= i < |kvs| && (AnyDiff(kvs[i].key) || AnyDiff(kvs[i].value)) {
      var i :| 0 <= i < |kvs| && (AnyDiff(kvs[i].key) || AnyDiff(kvs[i].value));
      if i > 0 {
        assert kvs[1..][i - 1] == kvs[i];
      }
    }
    if exists i :: 0 <= i < |kvs[1..]| && (AnyDiff(kvs[1..][i].key) || AnyDiff(kvs[1..][i].value)) {
      var i :| 0 <= i < |kvs[1..]| && (AnyDiff(kvs[1..][i].key) || AnyDiff(kvs[1..][i].value));
      assert kvs[i + 1] == kvs[1..][i];
    }
  }
}
