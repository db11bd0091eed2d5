/**
 * Diffing two trees: the result is one tree that holds both, with a diff
 * record at every divergence point (a node replaced, an element inserted or
 * removed, a property added or dropped).
 *
 * Ordered collections are aligned by an edit script that the caller supplies
 * (Swift's `CollectionDifference`); the differ is a parameter of every
 * function here and is only assumed to return valid scripts.
 */
module Diffing {
  import opened Wrappers
  import opened Limns
  import opened EditScripts
  import opened Sequences
  import opened Undiffing

  /** Computes the edit script from a first element sequence to a second. */
  type Differ = (seq<Limn>, seq<Limn>) -> EditScript

  ghost predicate ValidDiffer(d: Differ) {
    forall olds, news :: ValidScript(d(olds, news), olds, news)
  }

  // ---------------------------------------------------------------------------
  // Diff records
  // ---------------------------------------------------------------------------

  /** The record for a node replaced by another. */
  function Replacement(original: Limn, update: Limn): Limn {
    Encode(Diff(Some(original), Some(update)))
  }

  /** The record for a value that was removed. */
  function Removal(original: Limn): Limn {
    Encode(Diff(Some(original), None))
  }

  /** The record for a value that was added. */
  function Addition(update: Limn): Limn {
    Encode(Diff(None, Some(update)))
  }

  /**
   * Whether the tree holds diffing information: a diff record reachable
   * through properties, elements, dictionary values (never keys), enum
   * payloads and optionals.
   */
  predicate ContainsDiff(x: Limn) {
    match x
    case Class(_, _, ps) => exists i :: 0 <= i < |ps| && ContainsDiff(ps[i].value)
    case Collection(es) => exists i :: 0 <= i < |es| && ContainsDiff(es[i])
    case Dictionary(kvs) => exists i :: 0 <= i < |kvs| && ContainsDiff(kvs[i].value)
    case Enum(_, _, av) => av.Some? && ContainsDiff(av.value)
    case Optional(w) => w.Some? && ContainsDiff(w.value)
    case Set(es) => exists i :: 0 <= i < |es| && ContainsDiff(es[i])
    case Struct(n, ps) => n == DiffTypeName || exists i :: 0 <= i < |ps| && ContainsDiff(ps[i].value)
    case Tuple(ps) => exists i :: 0 <= i < |ps| && ContainsDiff(ps[i].value)
    case Value(_) => false
    case Omitted(_) => false
  }

  predicate SameKind(a: Limn, b: Limn) {
    match a
    case Class(_, _, _) => b.Class?
    case Collection(_) => b.Collection?
    case Dictionary(_) => b.Dictionary?
    case Enum(_, _, _) => b.Enum?
    case Optional(_) => b.Optional?
    case Set(_) => b.Set?
    case Struct(_, _) => b.Struct?
    case Tuple(_) => b.Tuple?
    case Value(_) => b.Value?
    case Omitted(_) => b.Omitted?
  }

  // ---------------------------------------------------------------------------
  // The public entry point
  // ---------------------------------------------------------------------------

  /**
   * Diffs `self` against `update`. Existing diffing information is reverted
   * first: `self` to its original side, `update` to its updated side.
   */
  function Diffed(self: Limn, update: Limn, d: Differ): (r: Limn)
    requires ValidDiffer(d)
    ensures !ContainsDiff(self) && !ContainsDiff(update) ==> r == DiffRec(self, update, d)
  {
    var original := if ContainsDiff(self) then Undiff(self, ToOriginal) else Some(self);
    var updated := if ContainsDiff(update) then Undiff(update, ToUpdate) else Some(update);
    match (original, updated)
    case (Some(o), Some(u)) => DiffRec(o, u, d)
    case (Some(o), None) => Removal(o)
    case (None, Some(u)) => Addition(u)
    case (None, None) => self
  }

  // ---------------------------------------------------------------------------
  // Recursive diffing, one function per node kind
  // ---------------------------------------------------------------------------

  function DiffRec(a: Limn, b: Limn, d: Differ): (r: Limn)
    requires ValidDiffer(d)
    ensures !SameKind(a, b) ==> r == Replacement(a, b)
    decreases a, 2
  {
    match a
    case Class(_, _, _) => DiffClass(a, b, d)
    case Collection(_) => DiffCollection(a, b, d)
    case Dictionary(_) => DiffDictionary(a, b, d)
    case Enum(_, _, _) => DiffEnum(a, b, d)
    case Optional(_) => DiffOptional(a, b, d)
    case Set(_) => DiffSet(a, b)
    case Struct(_, _) => DiffStruct(a, b, d)
    case Tuple(_) => DiffTuple(a, b, d)
    case Value(_) => DiffLeafValue(a, b)
    case Omitted(_) => DiffOmitted(a, b)
  }

  /**
   * Classes: the properties are diffed by label; a change of name or address
   * turns the node into a replacement whose two sides share those properties.
   */
  function DiffClass(a: Limn, b: Limn, d: Differ): (r: Limn)
    requires ValidDiffer(d) && a.Class?
    ensures b.Class? && a.name == b.name && a.address == b.address ==> r.Class? && r.name == a.name && r.address == a.address
    ensures b.Class? && (a.name != b.name || a.address != b.address) ==> IsDiffStruct(r)
    decreases a, 1
  {
    if !b.Class? then Replacement(a, b)
    else
      var props := DiffLabeled(a.properties, b.properties, d);
      if a.name != b.name || a.address != b.address then
        Replacement(Class(a.name, a.address, props), Class(b.name, b.address, props))
      else Class(b.name, b.address, props)
  }

  function DiffCollection(a: Limn, b: Limn, d: Differ): (r: Limn)
    requires ValidDiffer(d) && a.Collection?
    ensures b.Collection? ==> r.Collection?
    decreases a, 1
  {
    if !b.Collection? then Replacement(a, b)
    else
      var s := d(a.elements, b.elements);
      assert ValidScript(s, a.elements, b.elements);
      Collection(DiffWalk(a.elements, b.elements, s, 0, 0, d))
  }

  function DiffDictionary(a: Limn, b: Limn, d: Differ): (r: Limn)
    requires ValidDiffer(d) && a.Dictionary?
    ensures b.Dictionary? ==> r.Dictionary?
    decreases a, 1
  {
    if !b.Dictionary? then Replacement(a, b)
    else Dictionary(DiffKeyed(a.keyValuePairs, b.keyValuePairs, d))
  }

  /**
   * Enums: a change of type or case replaces the node. Otherwise the payloads
   * are diffed; a payload that appears or disappears is recorded against an
   * absent optional.
   */
  function DiffEnum(a: Limn, b: Limn, d: Differ): (r: Limn)
    requires ValidDiffer(d) && a.Enum?
    ensures b.Enum? && (a.name != b.name || a.caseName != b.caseName) ==> r == Replacement(a, b)
    ensures b.Enum? && a.name == b.name && a.caseName == b.caseName ==>
              && r.Enum? && r.name == a.name && r.caseName == a.caseName
              && (r.associatedValue.Some? <==> a.associatedValue.Some? || b.associatedValue.Some?)
    decreases a, 1
  {
    if !b.Enum? then Replacement(a, b)
    else if a.name != b.name || a.caseName != b.caseName then
      Replacement(a, Enum(b.name, b.caseName, b.associatedValue))
    else
      var payload :=
        match (a.associatedValue, b.associatedValue)
        case (Some(x), Some(y)) => Some(DiffRec(x, y, d))
        case (None, None) => None
        case (None, Some(y)) => Some(Replacement(NilOptional, y))
        case (Some(x), None) => Some(Replacement(x, NilOptional));
      Enum(a.name, a.caseName, payload)
  }

  function DiffOptional(a: Limn, b: Limn, d: Differ): (r: Limn)
    requires ValidDiffer(d) && a.Optional?
    ensures b.Optional? && a.wrapped.Some? != b.wrapped.Some? ==> r == Replacement(a, b)
    ensures b.Optional? && a.wrapped.None? && b.wrapped.None? ==> r == a
    decreases a, 1
  {
    if !b.Optional? then Replacement(a, b)
    else
      match (a.wrapped, b.wrapped)
      case (Some(x), Some(y)) => Optional(Some(DiffRec(x, y, d)))
      case (None, None) => a
      case _ => Replacement(a, Optional(b.wrapped))
  }

  function DiffSet(a: Limn, b: Limn): (r: Limn)
    requires a.Set?
    ensures b.Set? ==> r.Set?
  {
    if !b.Set? then Replacement(a, b)
    else Set(DiffSetElements(a.elements, b.elements))
  }

  /** Structs: like classes, with the type name as the only identity. */
  function DiffStruct(a: Limn, b: Limn, d: Differ): (r: Limn)
    requires ValidDiffer(d) && a.Struct?
    ensures b.Struct? && a.name == b.name ==> r.Struct? && r.name == a.name
    ensures b.Struct? && a.name != b.name ==> IsDiffStruct(r)
    decreases a, 1
  {
    if !b.Struct? then Replacement(a, b)
    else
      var props := DiffLabeled(a.properties, b.properties, d);
      if a.name != b.name then
        Replacement(Struct(a.name, props), Struct(b.name, props))
      else Struct(a.name, props)
  }

  /** Tuples: elements are diffed position by position when the labels agree; otherwise the node is replaced. */
  function DiffTuple(a: Limn, b: Limn, d: Differ): (r: Limn)
    requires ValidDiffer(d) && a.Tuple?
    ensures b.Tuple? && Labels(a.tupleElements) != Labels(b.tupleElements) ==> r == Replacement(a, b)
    ensures b.Tuple? && Labels(a.tupleElements) == Labels(b.tupleElements) ==>
              r.Tuple? && Labels(r.tupleElements) == Labels(a.tupleElements)
    decreases a, 1
  {
    if !b.Tuple? then Replacement(a, b)
    else if Labels(a.tupleElements) != Labels(b.tupleElements) then Replacement(a, b)
    else Tuple(DiffZip(a.tupleElements, b.tupleElements, d))
  }

  function DiffLeafValue(a: Limn, b: Limn): (r: Limn)
    requires a.Value?
    ensures r == a <==> a == b
    ensures r != a ==> r == Replacement(a, b)
  {
    if !b.Value? then Replacement(a, b)
    else if a.description != b.description then Replacement(a, Value(b.description))
    else a
  }

  function DiffOmitted(a: Limn, b: Limn): (r: Limn)
    requires a.Omitted?
    ensures r == a <==> a == b
    ensures r != a ==> r == Replacement(a, b)
  {
    if !b.Omitted? then Replacement(a, b)
    else if a.reason != b.reason then Replacement(a, Omitted(b.reason))
    else a
  }

  // ---------------------------------------------------------------------------
  // Child sequences
  // ---------------------------------------------------------------------------

  /**
   * Ordered collections: walks both element sequences with the edit script.
   * Kept and replaced positions are diffed recursively, inserted elements
   * become additions, removed elements removals.
   */
  function DiffWalk(olds: seq<Limn>, news: seq<Limn>, s: EditScript, o: nat, n: nat, d: Differ): (r: seq<Limn>)
    requires ValidDiffer(d) && Synced(s, olds, news, o, n)
    decreases olds, |olds| - o + |news| - n
  {
    if o >= |olds| && n >= |news| then []
    else
      StepFacts(s, olds, news, o, n);
      var isRemoval := o in s.removals;
      var isInsertion := n in s.insertions;
      if !isRemoval && !isInsertion then
        [DiffRec(olds[o], news[n], d)] + DiffWalk(olds, news, s, o + 1, n + 1, d)
      else if !isRemoval then
        [Addition(news[n])] + DiffWalk(olds, news, s, o, n + 1, d)
      else if !isInsertion then
        [Removal(olds[o])] + DiffWalk(olds, news, s, o + 1, n, d)
      else
        [DiffRec(olds[o], news[n], d)] + DiffWalk(olds, news, s, o + 1, n + 1, d)
  }

  /** The elements of an unordered collection, without omitted placeholders and duplicates. */
  function SetMembers(es: seq<Limn>): (r: seq<Limn>)
    ensures NoDuplicates(r)
    ensures forall x :: x in r <==> x in es && !IsOmitted(x)
  {
    Distinct(NonOmitted(es))
  }

  function NonOmitted(es: seq<Limn>): (r: seq<Limn>)
    ensures forall x :: x in r <==> x in es && !IsOmitted(x)
    ensures |r| <= |es|
  {
    if es == [] then []
    else (if IsOmitted(es[0]) then [] else [es[0]]) + NonOmitted(es[1..])
  }

  /** Marks the members of `olds` that `news` lacks as removals. */
  function MarkRemoved(olds: seq<Limn>, news: seq<Limn>): (r: seq<Limn>)
    ensures |r| == |olds|
    ensures forall i :: 0 <= i < |olds| ==> r[i] == if olds[i] in news then olds[i] else Removal(olds[i])
  {
    seq(|olds|, i requires 0 <= i < |olds| => if olds[i] in news then olds[i] else Removal(olds[i]))
  }

  function Additions(news: seq<Limn>): (r: seq<Limn>)
    ensures |r| == |news|
    ensures forall i :: 0 <= i < |news| ==> r[i] == Addition(news[i])
  {
    seq(|news|, i requires 0 <= i < |news| => Addition(news[i]))
  }

  /**
   * Sets: membership decides, there is no recursion. Old members that survive
   * stay as they are, the others become removals; then the new members that
   * are not old are appended as additions.
   */
  function DiffSetElements(olds: seq<Limn>, news: seq<Limn>): (r: seq<Limn>)
    ensures |r| == |SetMembers(olds)| + |Drop(SetMembers(news), SetMembers(olds))|
  {
    var oldMembers := SetMembers(olds);
    var newMembers := SetMembers(news);
    MarkRemoved(oldMembers, newMembers) + Additions(Drop(newMembers, oldMembers))
  }

  /** The first pair labelled `lbl` whose value is not omitted. */
  function MatchLabel(ps: seq<LabeledLimn>, lbl: string): (r: Option<nat>)
    ensures r.Some? ==> r.value < |ps| && ps[r.value].name == lbl && !IsOmitted(ps[r.value].value)
    ensures r.Some? ==> forall j :: 0 <= j < r.value ==> ps[j].name != lbl || IsOmitted(ps[j].value)
    ensures r.None? ==> forall j :: 0 <= j < |ps| ==> ps[j].name != lbl || IsOmitted(ps[j].value)
  {
    if |ps| == 0 then None
    else if ps[0].name == lbl && !IsOmitted(ps[0].value) then Some(0)
    else match MatchLabel(ps[1..], lbl)
      case None => None
      case Some(i) => Some(i + 1)
  }

  /**
   * Properties: pairs with omitted values take no part. Every old pair is
   * diffed against the new pair with its label or becomes a removal; then the
   * new pairs whose label is not old are appended, without a diff record.
   */
  function DiffLabeled(olds: seq<LabeledLimn>, news: seq<LabeledLimn>, d: Differ): (r: seq<LabeledLimn>)
    requires ValidDiffer(d)
    decreases olds, |olds| + 1
  {
    DiffLabeledFrom(olds, news, 0, d) + InsertedLabeled(news, olds, 0)
  }

  function DiffLabeledFrom(olds: seq<LabeledLimn>, news: seq<LabeledLimn>, i: nat, d: Differ): (r: seq<LabeledLimn>)
    requires ValidDiffer(d) && i <= |olds|
    ensures forall k :: 0 <= k < |r| ==> exists j :: i <= j < |olds| && r[k].name == olds[j].name
    decreases olds, |olds| - i
  {
    if i == |olds| then []
    else
      var rest := DiffLabeledFrom(olds, news, i + 1, d);
      var p := olds[i];
      if IsOmitted(p.value) then rest
      else match MatchLabel(news, p.name)
        case Some(j) => [LabeledLimn(p.name, DiffRec(p.value, news[j].value, d))] + rest
        case None => [LabeledLimn(p.name, Removal(p.value))] + rest
  }

  /** The new pairs (first of each label, value not omitted) whose label no old pair with a value carries. */
  function InsertedLabeled(news: seq<LabeledLimn>, olds: seq<LabeledLimn>, j: nat): (r: seq<LabeledLimn>)
    requires j <= |news|
    ensures forall k :: 0 <= k < |r| ==> r[k] in news[j..] && MatchLabel(olds, r[k].name).None?
    decreases |news| - j
  {
    if j == |news| then []
    else
      var rest := InsertedLabeled(news, olds, j + 1);
      if MatchLabel(news, news[j].name) == Some(j) && MatchLabel(olds, news[j].name).None?
      then [news[j]] + rest
      else rest
  }

  /** The first entry with key `key` whose value is not omitted. */
  function MatchKey(kvs: seq<KeyedLimn>, key: Limn): (r: Option<nat>)
    ensures r.Some? ==> r.value < |kvs| && kvs[r.value].key == key && !IsOmitted(kvs[r.value].value)
    ensures r.Some? ==> forall j :: 0 <= j < r.value ==> kvs[j].key != key || IsOmitted(kvs[j].value)
    ensures r.None? ==> forall j :: 0 <= j < |kvs| ==> kvs[j].key != key || IsOmitted(kvs[j].value)
  {
    if |kvs| == 0 then None
    else if kvs[0].key == key && !IsOmitted(kvs[0].value) then Some(0)
    else match MatchKey(kvs[1..], key)
      case None => None
      case Some(i) => Some(i + 1)
  }

  /**
   * Dictionaries: entries with omitted values take no part. An old entry whose
   * key is new too has key and value diffed; otherwise both become removals.
   * New keys are appended with key and value as additions.
   */
  function DiffKeyed(olds: seq<KeyedLimn>, news: seq<KeyedLimn>, d: Differ): (r: seq<KeyedLimn>)
    requires ValidDiffer(d)
    decreases olds, |olds| + 1
  {
    DiffKeyedFrom(olds, news, 0, d) + InsertedKeyed(news, olds, 0)
  }

  function DiffKeyedFrom(olds: seq<KeyedLimn>, news: seq<KeyedLimn>, i: nat, d: Differ): (r: seq<KeyedLimn>)
    requires ValidDiffer(d) && i <= |olds|
    ensures |r| <= |olds| - i
    decreases olds, |olds| - i
  {
    if i == |olds| then []
    else
      var rest := DiffKeyedFrom(olds, news, i + 1, d);
      var kv := olds[i];
      assert kv in olds && kv.key < kv && kv.value < kv;
      if IsOmitted(kv.value) then rest
      else match MatchKey(news, kv.key)
        case Some(j) => [KeyedLimn(DiffRec(kv.key, news[j].key, d), DiffRec(kv.value, news[j].value, d))] + rest
        case None => [KeyedLimn(Removal(kv.key), Removal(kv.value))] + rest
  }

  function InsertedKeyed(news: seq<KeyedLimn>, olds: seq<KeyedLimn>, j: nat): (r: seq<KeyedLimn>)
    requires j <= |news|
    ensures forall k :: 0 <= k < |r| ==> r[k].key.Struct? && r[k].key.name == DiffTypeName
    ensures |r| <= |news| - j
    decreases |news| - j
  {
    if j == |news| then []
    else
      var rest := InsertedKeyed(news, olds, j + 1);
      if MatchKey(news, news[j].key) == Some(j) && MatchKey(olds, news[j].key).None?
      then [KeyedLimn(Addition(news[j].key), Addition(news[j].value))] + rest
      else rest
  }

  /** Tuple elements, position by position (as far as the shorter side goes). */
  function DiffZip(olds: seq<LabeledLimn>, news: seq<LabeledLimn>, d: Differ): (r: seq<LabeledLimn>)
    requires ValidDiffer(d)
    ensures |r| == if |olds| < |news| then |olds| else |news|
    ensures forall k :: 0 <= k < |r| ==> r[k].name == olds[k].name
    decreases olds, 0
  {
    if olds == [] || news == [] then []
    else [LabeledLimn(olds[0].name, DiffRec(olds[0].value, news[0].value, d))] + DiffZip(olds[1..], news[1..], d)
  }
}
