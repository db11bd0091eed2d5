/**
 * Reordering the non-indexed children of a tree: class and struct properties
 * by label, dictionary entries by their key's comparison string, set elements
 * by their own comparison string. Collections and tuples keep their order.
 */
module Sorts {
  import opened Wrappers
  import opened Limns
  import opened Sorting

  datatype SortOrder = Ascending | Descending

  /** The three-way outcome of comparing two strings. */
  datatype ComparisonResult = OrderedAscending | OrderedSame | OrderedDescending

  /** The comparison outcome that means "the first argument comes before the second" in `order`. */
  function ComparisonResultValue(order: SortOrder): (r: ComparisonResult)
    ensures r != OrderedSame
    ensures order == Ascending <==> r == OrderedAscending
  {
    match order
    case Ascending => OrderedAscending
    case Descending => OrderedDescending
  }

  /** The string comparator the sort uses: `compare(a, b)` is the outcome that `order` asks for. */
  function Comparator(compare: (string, string) -> ComparisonResult, order: SortOrder): (string, string) -> bool {
    (a, b) => compare(a, b) == ComparisonResultValue(order)
  }

  /** `compare(a, b)` says "ascending" exactly when `compare(b, a)` says "descending". */
  ghost predicate Antisymmetric(compare: (string, string) -> ComparisonResult) {
    forall a, b :: compare(a, b) == OrderedAscending <==> compare(b, a) == OrderedDescending
  }

  /** With an antisymmetric comparison, descending order is ascending order with the arguments swapped. */
  lemma DescendingIsFlipped(compare: (string, string) -> ComparisonResult)
    requires Antisymmetric(compare)
    ensures forall a, b :: Comparator(compare, Descending)(a, b) == Comparator(compare, Ascending)(b, a)
  {
    forall a, b ensures Comparator(compare, Descending)(a, b) == Comparator(compare, Ascending)(b, a) {
      assert compare(b, a) == OrderedAscending <==> compare(a, b) == OrderedDescending;
    }
  }

  /** The comparison string of an omitted placeholder: the last code unit of the Basic Multilingual Plane. */
  const LastString: string := "\U{FFFF}"

  /**
   * The string a tree is ordered by inside a set or as a dictionary key.
   * `hashText` is the decimal rendering of the tree's hash value.
   */
  function SortString(x: Limn, hashText: Limn -> string): (r: string)
    ensures x.Omitted? ==> r == LastString
    ensures x.Optional? && x.wrapped.None? ==> r == "."
    ensures x.Optional? && x.wrapped.Some? ==> r == SortString(x.wrapped.value, hashText)
    ensures !x.Omitted? && !x.Optional? && !IsDiffStruct(x) ==>
              |r| > |hashText(x)| && r[|r| - |hashText(x)| - 1] == '.'
              && r[|r| - |hashText(x)|..] == hashText(x)
    decreases x
  {
    match x
    case Class(name, address, _) => name + "." + address + "." + hashText(x)
    case Collection(_) => "[]." + hashText(x)
    case Dictionary(_) => "[:]." + hashText(x)
    case Enum(name, caseName, _) => name + "." + caseName + "." + hashText(x)
    case Optional(w) => if w.Some? then SortString(w.value, hashText) else "."
    case Set(_) => "[]." + hashText(x)
    case Struct(name, ps) =>
      if name == DiffTypeName then
        match FirstIndexOfLabel(ps, OriginalLabel)
        case Some(i) =>
          assert ps[i] in ps;
          SortString(ps[i].value, hashText)
        case None =>
          match FirstIndexOfLabel(ps, UpdateLabel)
          case Some(i) =>
            assert ps[i] in ps;
            SortString(ps[i].value, hashText)
          case None => ""
      else name + "." + hashText(x)
    case Tuple(_) => "()." + hashText(x)
    case Value(description) => description + "." + hashText(x)
    case Omitted(_) => LastString
  }

  /** A diff record is ordered by its original side, else by its update side, else first of all. */
  lemma SortStringOfDiff(d: Diff, hashText: Limn -> string)
    ensures SortString(Encode(d), hashText) ==
              if d.original.Some? then SortString(d.original.value, hashText)
              else if d.update.Some? then SortString(d.update.value, hashText)
              else ""
  {
    DecodeEncode(d);
    var ps := Encode(d).properties;
    match FirstIndexOfLabel(ps, OriginalLabel) {
      case Some(i) =>
        assert ValueOfLabel(ps, OriginalLabel) == Some(ps[i].value);
      case None =>
        match FirstIndexOfLabel(ps, UpdateLabel) {
          case Some(i) =>
            assert ValueOfLabel(ps, UpdateLabel) == Some(ps[i].value);
          case None =>
        }
    }
  }

  // ---------------------------------------------------------------------------
  // Comparators on children
  // ---------------------------------------------------------------------------

  function LabelOf(p: LabeledLimn): string {
    p.name
  }

  function ByLabel(before: (string, string) -> bool): (LabeledLimn, LabeledLimn) -> bool {
    ByKey(LabelOf, before)
  }

  function ByString(before: (string, string) -> bool, hashText: Limn -> string): (Limn, Limn) -> bool {
    ByKey((x: Limn) => SortString(x, hashText), before)
  }

  function ByKeyString(before: (string, string) -> bool, hashText: Limn -> string): (KeyedLimn, KeyedLimn) -> bool {
    ByKey((kv: KeyedLimn) => SortString(kv.key, hashText), before)
  }

  /** The properties of a class or struct in the order the sort puts them, before their values are sorted. */
  function PropertyOrder(ps: seq<LabeledLimn>, before: (string, string) -> bool): (r: seq<LabeledLimn>)
    ensures multiset(r) == multiset(ps) && |r| == |ps|
    ensures forall i :: 0 <= i < |r| ==> r[i] in ps
  {
    var r := SortBy(ps, ByLabel(before));
    assert forall i :: 0 <= i < |r| ==> r[i] in multiset(r);
    r
  }

  /** The entries of a dictionary in the order the sort puts them, before keys and values are sorted. */
  function EntryOrder(kvs: seq<KeyedLimn>, before: (string, string) -> bool, hashText: Limn -> string): (r: seq<KeyedLimn>)
    ensures multiset(r) == multiset(kvs) && |r| == |kvs|
    ensures forall i :: 0 <= i < |r| ==> r[i] in kvs
  {
    var r := SortBy(kvs, ByKeyString(before, hashText));
    assert forall i :: 0 <= i < |r| ==> r[i] in multiset(r);
    r
  }

  /** The elements of a set in the order the sort puts them, before they are sorted themselves. */
  function ElementOrder(es: seq<Limn>, before: (string, string) -> bool, hashText: Limn -> string): (r: seq<Limn>)
    ensures multiset(r) == multiset(es) && |r| == |es|
    ensures forall i :: 0 <= i < |r| ==> r[i] in es
  {
    var r := SortBy(es, ByString(before, hashText));
    assert forall i :: 0 <= i < |r| ==> r[i] in multiset(r);
    r
  }

  // ---------------------------------------------------------------------------
  // Sorting a tree
  // ---------------------------------------------------------------------------

  /** The tree with every non-indexed child sequence reordered by `before`, recursively. */
  function SortRec(x: Limn, before: (string, string) -> bool, hashText: Limn -> string): (r: Limn)
    ensures x.Class? <==> r.Class?
    ensures x.Class? ==> r.name == x.name && r.address == x.address
    ensures x.Struct? <==> r.Struct?
    ensures x.Struct? ==> r.name == x.name
    ensures (x.Class? || x.Struct?) ==>
              r.properties == SortLabeled(PropertyOrder(x.properties, before), x.properties, before, hashText)
    ensures x.Collection? <==> r.Collection?
    ensures x.Collection? ==>
              |r.elements| == |x.elements|
              && forall i :: 0 <= i < |x.elements| ==> r.elements[i] == SortRec(x.elements[i], before, hashText)
    ensures x.Dictionary? <==> r.Dictionary?
    ensures x.Dictionary? ==>
              r.keyValuePairs == SortKeyed(EntryOrder(x.keyValuePairs, before, hashText), x.keyValuePairs, before, hashText)
    ensures x.Enum? <==> r.Enum?
    ensures x.Enum? ==>
              r.name == x.name && r.caseName == x.caseName
              && r.associatedValue.Some? == x.associatedValue.Some?
    ensures x.Optional? <==> r.Optional?
    ensures x.Optional? ==> r.wrapped.Some? == x.wrapped.Some?
    ensures x.Set? <==> r.Set?
    ensures x.Set? ==>
              r.elements == SortElements(ElementOrder(x.elements, before, hashText), x.elements, before, hashText)
    ensures x.Tuple? <==> r.Tuple?
    ensures x.Tuple? ==>
              |r.tupleElements| == |x.tupleElements|
              && forall i :: 0 <= i < |x.tupleElements| ==>
                   r.tupleElements[i] == LabeledLimn(x.tupleElements[i].name, SortRec(x.tupleElements[i].value, before, hashText))
    ensures (x.Value? || x.Omitted?) ==> r == x
    decreases x, 2
  {
    match x
    case Class(name, address, ps) =>
      Class(name, address, SortLabeled(PropertyOrder(ps, before), ps, before, hashText))
    case Collection(es) => Collection(SortElements(es, es, before, hashText))
    case Dictionary(kvs) =>
      Dictionary(SortKeyed(EntryOrder(kvs, before, hashText), kvs, before, hashText))
    case Enum(name, caseName, av) =>
      Enum(name, caseName, if av.Some? then Some(SortRec(av.value, before, hashText)) else None)
    case Optional(w) =>
      Optional(if w.Some? then Some(SortRec(w.value, before, hashText)) else None)
    case Set(es) => Set(SortElements(ElementOrder(es, before, hashText), es, before, hashText))
    case Struct(name, ps) =>
      Struct(name, SortLabeled(PropertyOrder(ps, before), ps, before, hashText))
    case Tuple(ps) => Tuple(SortLabeled(ps, ps, before, hashText))
    case Value(_) => x
    case Omitted(_) => x
  }

  /** Sorts the value of every pair of `qs`, a rearrangement of (some of) the children `ps`. */
  function SortLabeled(qs: seq<LabeledLimn>, ps: seq<LabeledLimn>, before: (string, string) -> bool,
                       hashText: Limn -> string): (r: seq<LabeledLimn>)
    requires forall i :: 0 <= i < |qs| ==> qs[i] in ps
    ensures |r| == |qs|
    ensures forall i :: 0 <= i < |qs| ==> r[i] == LabeledLimn(qs[i].name, SortRec(qs[i].value, before, hashText))
    decreases ps, |qs|
  {
    if qs == [] then []
    else
      assert qs[0] in ps;
      [LabeledLimn(qs[0].name, SortRec(qs[0].value, before, hashText))]
        + SortLabeled(qs[1..], ps, before, hashText)
  }

  function SortElements(qs: seq<Limn>, es: seq<Limn>, before: (string, string) -> bool,
                        hashText: Limn -> string): (r: seq<Limn>)
    requires forall i :: 0 <= i < |qs| ==> qs[i] in es
    ensures |r| == |qs|
    ensures forall i :: 0 <= i < |qs| ==> r[i] == SortRec(qs[i], before, hashText)
    decreases es, |qs|
  {
    if qs == [] then []
    else
      assert qs[0] in es;
      [SortRec(qs[0], before, hashText)] + SortElements(qs[1..], es, before, hashText)
  }

  function SortKeyed(qs: seq<KeyedLimn>, kvs: seq<KeyedLimn>, before: (string, string) -> bool,
                     hashText: Limn -> string): (r: seq<KeyedLimn>)
    requires forall i :: 0 <= i < |qs| ==> qs[i] in kvs
    ensures |r| == |qs|
    ensures forall i :: 0 <= i < |qs| ==> r[i] == SortEntry(qs[i], before, hashText)
    decreases kvs, |qs|
  {
    if qs == [] then []
    else
      assert qs[0] in kvs;
      [SortEntry(qs[0], before, hashText)]
        + SortKeyed(qs[1..], kvs, before, hashText)
  }

  /** A dictionary entry with its key and its value sorted. */
  function SortEntry(kv: KeyedLimn, before: (string, string) -> bool, hashText: Limn -> string): (r: KeyedLimn)
    decreases kv, 0
  {
    assert kv.key < kv && kv.value < kv;
    KeyedLimn(SortRec(kv.key, before, hashText), SortRec(kv.value, before, hashText))
  }

  /** Sorts a tree in `order`, given the three-way string comparison (which carries the comparison options). */
  function Sorted(x: Limn, order: SortOrder, compare: (string, string) -> ComparisonResult,
                  hashText: Limn -> string): (r: Limn)
  {
    SortRec(x, Comparator(compare, order), hashText)
  }
}
