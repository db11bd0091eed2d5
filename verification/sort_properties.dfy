/** What sorting a tree promises: ordered, rearranged but complete, omitted last, descending the reverse of ascending. */
module SortProperties {
  import opened Wrappers
  import opened Limns
  import opened Sequences
  import opened Sorting
  import opened Sorts

  /** A property with its value sorted: what every property becomes, wherever it lands. */
  function SortedProperty(before: (string, string) -> bool, hashText: Limn -> string): LabeledLimn -> LabeledLimn {
    (p: LabeledLimn) => LabeledLimn(p.name, SortRec(p.value, before, hashText))
  }

  function SortedElement(before: (string, string) -> bool, hashText: Limn -> string): Limn -> Limn {
    (e: Limn) => SortRec(e, before, hashText)
  }

  function SortedEntry(before: (string, string) -> bool, hashText: Limn -> string): KeyedLimn -> KeyedLimn {
    (kv: KeyedLimn) => SortEntry(kv, before, hashText)
  }

  /** With a strict weak order, the properties of a sorted class or struct are in label order. */
  lemma PropertiesSorted(x: Limn, before: (string, string) -> bool, hashText: Limn -> string)
    requires StrictWeakOrder(before)
    requires x.Class? || x.Struct?
    ensures SortedBy(Labels(SortRec(x, before, hashText).properties), before)
  {
    var qs := PropertyOrder(x.properties, before);
    ByKeyStrictWeakOrder(LabelOf, before);
    SortBySorted(x.properties, ByLabel(before));
    var labels := Labels(SortRec(x, before, hashText).properties);
    SortedByKey(qs, LabelOf, before, labels);
  }

  /** The properties of a sorted class or struct are its own properties, each value sorted, rearranged. */
  lemma PropertiesPermuted(x: Limn, before: (string, string) -> bool, hashText: Limn -> string)
    requires x.Class? || x.Struct?
    ensures multiset(SortRec(x, before, hashText).properties)
            == multiset(Map(x.properties, SortedProperty(before, hashText)))
    ensures multiset(Labels(SortRec(x, before, hashText).properties)) == multiset(Labels(x.properties))
  {
    var f := SortedProperty(before, hashText);
    var qs := PropertyOrder(x.properties, before);
    var r := SortRec(x, before, hashText).properties;
    assert r == Map(qs, f);
    MapPermutation(qs, x.properties, f);
    assert Labels(r) == Map(qs, LabelOf);
    assert Labels(x.properties) == Map(x.properties, LabelOf);
    MapPermutation(qs, x.properties, LabelOf);
  }

  /** The elements of a sorted set are its own elements, each sorted, rearranged. */
  lemma SetPermuted(x: Limn, before: (string, string) -> bool, hashText: Limn -> string)
    requires x.Set?
    ensures multiset(SortRec(x, before, hashText).elements) == multiset(Map(x.elements, SortedElement(before, hashText)))
  {
    var f := SortedElement(before, hashText);
    var qs := ElementOrder(x.elements, before, hashText);
    assert SortRec(x, before, hashText).elements == Map(qs, f);
    MapPermutation(qs, x.elements, f);
  }

  /** The entries of a sorted dictionary are its own entries, key and value sorted, rearranged. */
  lemma DictionaryPermuted(x: Limn, before: (string, string) -> bool, hashText: Limn -> string)
    requires x.Dictionary?
    ensures multiset(SortRec(x, before, hashText).keyValuePairs)
            == multiset(Map(x.keyValuePairs, SortedEntry(before, hashText)))
  {
    var f := SortedEntry(before, hashText);
    var qs := EntryOrder(x.keyValuePairs, before, hashText);
    assert SortRec(x, before, hashText).keyValuePairs == Map(qs, f);
    MapPermutation(qs, x.keyValuePairs, f);
  }

  /** With a strict weak order, dictionary entries are in the order of their keys' comparison strings. */
  lemma EntriesSorted(x: Limn, before: (string, string) -> bool, hashText: Limn -> string)
    requires StrictWeakOrder(before)
    requires x.Dictionary?
    ensures var qs := EntryOrder(x.keyValuePairs, before, hashText);
            forall i, j :: 0 <= i < j < |qs| ==>
              !before(SortString(qs[j].key, hashText), SortString(qs[i].key, hashText))
  {
    var key := (kv: KeyedLimn) => SortString(kv.key, hashText);
    ByKeyStrictWeakOrder(key, before);
    SortBySorted(x.keyValuePairs, ByKeyString(before, hashText));
    var qs := EntryOrder(x.keyValuePairs, before, hashText);
    forall i, j | 0 <= i < j < |qs|
      ensures !before(SortString(qs[j].key, hashText), SortString(qs[i].key, hashText))
    {
      assert !ByKeyString(before, hashText)(qs[j], qs[i]);
    }
  }

  /** With a strict weak order, set elements are in the order of their comparison strings. */
  lemma ElementsSorted(es: seq<Limn>, before: (string, string) -> bool, hashText: Limn -> string)
    requires StrictWeakOrder(before)
    ensures var qs := ElementOrder(es, before, hashText);
            forall i, j :: 0 <= i < j < |qs| ==> !before(SortString(qs[j], hashText), SortString(qs[i], hashText))
  {
    var key := (e: Limn) => SortString(e, hashText);
    ByKeyStrictWeakOrder(key, before);
    SortBySorted(es, ByString(before, hashText));
    var qs := ElementOrder(es, before, hashText);
    forall i, j | 0 <= i < j < |qs| ensures !before(SortString(qs[j], hashText), SortString(qs[i], hashText)) {
      assert !ByString(before, hashText)(qs[j], qs[i]);
    }
  }

  /**
   * When the comparator puts the placeholder string after every other string
   * (as ascending order does), an omitted element of a sorted set is followed
   * only by elements whose comparison string is the placeholder string too.
   */
  lemma OmittedElementsLast(x: Limn, before: (string, string) -> bool, hashText: Limn -> string)
    requires StrictWeakOrder(before)
    requires forall s :: s != LastString ==> before(s, LastString)
    requires x.Set?
    ensures var r := SortRec(x, before, hashText);
            var qs := ElementOrder(x.elements, before, hashText);
            forall i, j :: 0 <= i < j < |r.elements| && r.elements[i].Omitted? ==>
              SortString(qs[j], hashText) == LastString
  {
    var r := SortRec(x, before, hashText);
    var qs := ElementOrder(x.elements, before, hashText);
    ElementsSorted(x.elements, before, hashText);
    forall i, j | 0 <= i < j < |r.elements| && r.elements[i].Omitted?
      ensures SortString(qs[j], hashText) == LastString
    {
      assert r.elements[i] == SortRec(qs[i], before, hashText);
      assert qs[i].Omitted?;
      assert SortString(qs[i], hashText) == LastString;
      assert !before(SortString(qs[j], hashText), LastString);
    }
  }

  /** The comparator separates every two distinct strings: no two different labels tie. */
  ghost predicate Total(before: (string, string) -> bool) {
    forall a, b :: a != b ==> before(a, b) || before(b, a)
  }

  /** Distinct labels under a total comparator: no two properties tie. */
  lemma LabelsSeparate(ps: seq<LabeledLimn>, before: (string, string) -> bool)
    requires Total(before) && NoDuplicates(Labels(ps))
    ensures Separates(ps, ByLabel(before))
  {
    forall p, q | p in ps && q in ps ensures p == q || ByLabel(before)(p, q) || ByLabel(before)(q, p) {
      var i :| 0 <= i < |ps| && ps[i] == p;
      var j :| 0 <= j < |ps| && ps[j] == q;
      if i != j {
        assert Labels(ps)[i] != Labels(ps)[j];
        assert before(p.name, q.name) || before(q.name, p.name);
        assert ByLabel(before)(p, q) == before(LabelOf(p), LabelOf(q));
        assert ByLabel(before)(q, p) == before(LabelOf(q), LabelOf(p));
      }
    }
  }

  lemma ByLabelFlipped(compare: (string, string) -> ComparisonResult)
    requires Antisymmetric(compare)
    ensures forall p, q :: ByLabel(Comparator(compare, Descending))(p, q) == ByLabel(Comparator(compare, Ascending))(q, p)
  {
    var up := Comparator(compare, Ascending);
    var down := Comparator(compare, Descending);
    DescendingIsFlipped(compare);
    forall p, q ensures ByLabel(down)(p, q) == ByLabel(up)(q, p) {
      assert down(p.name, q.name) == up(q.name, p.name);
      assert ByLabel(down)(p, q) == down(LabelOf(p), LabelOf(q));
      assert ByLabel(up)(q, p) == up(LabelOf(q), LabelOf(p));
    }
  }

  /** The labels of the sorted properties are the labels of the reordered properties. */
  lemma SortedLabels(x: Limn, before: (string, string) -> bool, hashText: Limn -> string)
    requires x.Class? || x.Struct?
    ensures Labels(SortRec(x, before, hashText).properties) == Labels(PropertyOrder(x.properties, before))
  {
  }

  lemma LabelsReverse(ps: seq<LabeledLimn>, qs: seq<LabeledLimn>)
    requires ps == Reverse(qs)
    ensures Labels(ps) == Reverse(Labels(qs))
  {
  }

  /**
   * When labels are distinct and the comparison is a total, antisymmetric
   * order, sorting in descending order lists the properties of a class or
   * struct in exactly the reverse of ascending order.
   */
  lemma DescendingReversesProperties(x: Limn, compare: (string, string) -> ComparisonResult, hashText: Limn -> string)
    requires Antisymmetric(compare)
    requires StrictWeakOrder(Comparator(compare, Ascending)) && Total(Comparator(compare, Ascending))
    requires x.Class? || x.Struct?
    requires NoDuplicates(Labels(x.properties))
    ensures Labels(Sorted(x, Descending, compare, hashText).properties)
            == Reverse(Labels(Sorted(x, Ascending, compare, hashText).properties))
  {
    var up := Comparator(compare, Ascending);
    var down := Comparator(compare, Descending);
    var ps := x.properties;
    ByKeyStrictWeakOrder(LabelOf, up);
    LabelsSeparate(ps, up);
    ByLabelFlipped(compare);
    SortFlippedIsReverse(ps, ByLabel(up), ByLabel(down));
    LabelsReverse(PropertyOrder(ps, down), PropertyOrder(ps, up));
    SortedLabels(x, up, hashText);
    SortedLabels(x, down, hashText);
  }
}
