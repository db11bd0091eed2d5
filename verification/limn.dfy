/**
 * The Limn value tree: a reflection-neutral description of any value as a tree
 * of classes, collections, dictionaries, enums, optionals, sets, structs,
 * tuples, leaf values and omitted placeholders, plus the labelled and keyed
 * child pairs and the `Diff` record that diffing stores inside a tree as a
 * struct with a reserved type name.
 */
module Limns {
  import opened Wrappers

  /** Why a child of a tree is not described. */
  datatype OmittedReason = Filtered | Unresolved | MaxDepthExceeded | ReferenceCycleDetected

  datatype Limn =
    | Class(name: string, address: string, properties: seq<LabeledLimn>)
    | Collection(elements: seq<Limn>)
    | Dictionary(keyValuePairs: seq<KeyedLimn>)
    | Enum(name: string, caseName: string, associatedValue: Option<Limn>)
    | Optional(wrapped: Option<Limn>)
    | Set(elements: seq<Limn>)
    | Struct(name: string, properties: seq<LabeledLimn>)
    | Tuple(tupleElements: seq<LabeledLimn>)
    | Value(description: string)
    | Omitted(reason: OmittedReason)

  /** A child identified by a string label (a property or a tuple element). */
  datatype LabeledLimn = LabeledLimn(name: string, value: Limn)

  /** A child identified by a key tree (a dictionary entry). */
  datatype KeyedLimn = KeyedLimn(key: Limn, value: Limn)

  /** The entry that stands for omitted dictionary contents: both sides omitted. */
  function OmittedPair(reason: OmittedReason): (r: KeyedLimn)
    ensures r.key == r.value && r.key.Omitted? && r.key.reason == reason
  {
    KeyedLimn(Omitted(reason), Omitted(reason))
  }

  /** The property that stands for omitted properties; the label defaults to "". */
  function OmittedLabeled(name: string, reason: OmittedReason): (r: LabeledLimn)
    ensures r.name == name && r.value == Omitted(reason)
  {
    LabeledLimn(name, Omitted(reason))
  }

  /** The omitted property with the default (empty) label. */
  function OmittedProperty(reason: OmittedReason): LabeledLimn {
    OmittedLabeled("", reason)
  }

  predicate IsOmitted(x: Limn) {
    x.Omitted?
  }

  // ---------------------------------------------------------------------------
  // The diff record
  // ---------------------------------------------------------------------------

  /** The fully qualified type name of the diff record: the struct name that marks a divergence point. */
  const DiffTypeName: string := "Limn.Limn.Diff"

  const OriginalLabel: string := "original"
  const UpdateLabel: string := "update"

  /** A divergence point: `None` original means "added", `None` update means "removed". */
  datatype Diff = Diff(original: Option<Limn>, update: Option<Limn>)

  predicate IsDiffStruct(x: Limn) {
    x.Struct? && x.name == DiffTypeName
  }

  /** Index of the first pair carrying `lbl`, if any. */
  function FirstIndexOfLabel(ps: seq<LabeledLimn>, lbl: string): (r: Option<nat>)
    ensures r.Some? ==> r.value < |ps| && ps[r.value].name == lbl
                        && forall j :: 0 <= j < r.value ==> ps[j].name != lbl
    ensures r.None? ==> forall j :: 0 <= j < |ps| ==> ps[j].name != lbl
  {
    if |ps| == 0 then None
    else if ps[0].name == lbl then Some(0)
    else match FirstIndexOfLabel(ps[1..], lbl)
      case None => None
      case Some(i) => Some(i + 1)
  }

  /** The value of the first pair carrying `lbl`, if any. */
  function ValueOfLabel(ps: seq<LabeledLimn>, lbl: string): (r: Option<Limn>)
    ensures r.Some? <==> exists j :: 0 <= j < |ps| && ps[j].name == lbl
    ensures r.Some? ==> r.value in LabeledValues(ps)
  {
    match FirstIndexOfLabel(ps, lbl)
    case None => None
    case Some(i) => Some(ps[i].value)
  }

  function LabeledValues(ps: seq<LabeledLimn>): (r: seq<Limn>)
    ensures |r| == |ps| && forall i :: 0 <= i < |ps| ==> r[i] == ps[i].value
  {
    seq(|ps|, i requires 0 <= i < |ps| => ps[i].value)
  }

  function Labels(ps: seq<LabeledLimn>): (r: seq<string>)
    ensures |r| == |ps| && forall i :: 0 <= i < |ps| ==> r[i] == ps[i].name
  {
    seq(|ps|, i requires 0 <= i < |ps| => ps[i].name)
  }

  /**
   * The tree stored for a diff record: a struct with the reserved name whose
   * properties are "original" and then "update", each present only when the
   * side is.
   */
  function Encode(d: Diff): (r: Limn)
    ensures IsDiffStruct(r)
    ensures |r.properties| == (if d.original.Some? then 1 else 0) + (if d.update.Some? then 1 else 0)
  {
    var originals := if d.original.Some? then [LabeledLimn(OriginalLabel, d.original.value)] else [];
    var updates := if d.update.Some? then [LabeledLimn(UpdateLabel, d.update.value)] else [];
    Struct(DiffTypeName, originals + updates)
  }

  /** Reads a diff record back: each side is the first property with its label. */
  function Decode(x: Limn): (r: Option<Diff>)
    ensures r.Some? <==> IsDiffStruct(x)
  {
    if IsDiffStruct(x) then
      Some(Diff(ValueOfLabel(x.properties, OriginalLabel), ValueOfLabel(x.properties, UpdateLabel)))
    else None
  }

  /** The diff stored in a tree, if the tree is a diff record. */
  function DiffValue(x: Limn): Option<Diff> {
    Decode(x)
  }

  lemma DecodeEncode(d: Diff)
    ensures Decode(Encode(d)) == Some(d)
  {
    var r := Encode(d);
    match d.original {
      case Some(o) =>
        assert r.properties[0] == LabeledLimn(OriginalLabel, o);
      case None =>
    }
    match d.update {
      case Some(u) =>
        assert r.properties[|r.properties| - 1] == LabeledLimn(UpdateLabel, u);
        assert ValueOfLabel(r.properties, UpdateLabel) == Some(u);
      case None =>
    }
  }

  /** Two different diffs are never stored as the same tree. */
  lemma EncodeInjective(d1: Diff, d2: Diff)
    requires Encode(d1) == Encode(d2)
    ensures d1 == d2
  {
    DecodeEncode(d1);
    DecodeEncode(d2);
  }

  // ---------------------------------------------------------------------------
  // Shapes of trees
  // ---------------------------------------------------------------------------

  /** No diff record anywhere in the tree, dictionary keys included. */
  predicate Plain(x: Limn) {
    match x
    case Class(_, _, ps) => forall i :: 0 <= i < |ps| ==> Plain(ps[i].value)
    case Collection(es) => forall i :: 0 <= i < |es| ==> Plain(es[i])
    case Dictionary(kvs) => forall i :: 0 <= i < |kvs| ==> Plain(kvs[i].key) && Plain(kvs[i].value)
    case Enum(_, _, av) => av.Some? ==> Plain(av.value)
    case Optional(w) => w.Some? ==> Plain(w.value)
    case Set(es) => forall i :: 0 <= i < |es| ==> Plain(es[i])
    case Struct(n, ps) => n != DiffTypeName && forall i :: 0 <= i < |ps| ==> Plain(ps[i].value)
    case Tuple(ps) => forall i :: 0 <= i < |ps| ==> Plain(ps[i].value)
    case Value(_) => true
    case Omitted(_) => true
  }

  const NilOptional: Limn := Optional(None)

  /** No dictionary anywhere in the tree has an absent optional as a key or a value. */
  predicate NoNilEntries(x: Limn) {
    match x
    case Class(_, _, ps) => forall i :: 0 <= i < |ps| ==> NoNilEntries(ps[i].value)
    case Collection(es) => forall i :: 0 <= i < |es| ==> NoNilEntries(es[i])
    case Dictionary(kvs) =>
      forall i :: 0 <= i < |kvs| ==>
        kvs[i].key != NilOptional && kvs[i].value != NilOptional
        && NoNilEntries(kvs[i].key) && NoNilEntries(kvs[i].value)
    case Enum(_, _, av) => av.Some? ==> NoNilEntries(av.value)
    case Optional(w) => w.Some? ==> NoNilEntries(w.value)
    case Set(es) => forall i :: 0 <= i < |es| ==> NoNilEntries(es[i])
    case Struct(_, ps) => forall i :: 0 <= i < |ps| ==> NoNilEntries(ps[i].value)
    case Tuple(ps) => forall i :: 0 <= i < |ps| ==> NoNilEntries(ps[i].value)
    case Value(_) => true
    case Omitted(_) => true
  }
}
