/** Integer keys, lookups through diff records, and the lookups the library's tests make. */
module KeyValueProperties {
  import opened Wrappers
  import opened Limns
  import opened Extensions
  import opened KeyValues
  import opened Undiffing

  /** An integer key on a collection is the bounds-checked index. */
  lemma LookupIntCollection(es: seq<Limn>, n: int)
    requires IntMin <= n <= IntMax
    ensures LookupInt(Collection(es), n) == SafeIndex(es, n)
  {
    ParseIntDescription(n);
  }

  /** On a tuple, an integer key in range picks by position, whatever the labels say. */
  lemma LookupIntTuple(ps: seq<LabeledLimn>, n: int)
    requires 0 <= n < |ps| && n <= IntMax
    ensures LookupInt(Tuple(ps), n) == Some(ps[n].value)
  {
    ParseIntDescription(n);
  }

  /**
   * Looking a key up through a diff record and then undiffing gives what
   * looking it up on the chosen side and undiffing gives.
   */
  lemma UndiffLookupThroughDiff(d: Diff, key: string, dir: Direction)
    requires key != []
    ensures var r := Lookup(Encode(d), key);
            r.Some? && Undiff(r.value, dir) == (match Side(d, dir)
                                                 case None => None
                                                 case Some(v) =>
                                                   match Lookup(v, key)
                                                   case None => None
                                                   case Some(w) => Undiff(w, dir))
  {
    DecodeEncode(d);
    var ps := Encode(d).properties;
    var looked := Diff(LookupSide(d.original, key), LookupSide(d.update, key));
    match FirstIndexOfLabel(ps, OriginalLabel) {
      case Some(i) => assert ValueOfLabel(ps, OriginalLabel) == Some(ps[i].value);
      case None =>
    }
    match FirstIndexOfLabel(ps, UpdateLabel) {
      case Some(i) => assert ValueOfLabel(ps, UpdateLabel) == Some(ps[i].value);
      case None =>
    }
    assert Lookup(Encode(d), key) == Some(Encode(looked));
    UndiffEncode(looked, dir);
  }

  /** `side?[key]`: nothing when the side is absent. */
  function LookupSide(side: Option<Limn>, key: string): (r: Option<Limn>)
    ensures side.None? ==> r.None?
  {
    match side
    case None => None
    case Some(v) => Lookup(v, key)
  }

  /** A diff record answers every non-empty key, with a record of both sides' answers. */
  lemma LookupDiffRecord(d: Diff, key: string)
    requires key != []
    ensures Lookup(Encode(d), key) == Some(Encode(Diff(LookupSide(d.original, key), LookupSide(d.update, key))))
  {
    DecodeEncode(d);
    var ps := Encode(d).properties;
    match FirstIndexOfLabel(ps, OriginalLabel) {
      case Some(i) => assert ValueOfLabel(ps, OriginalLabel) == Some(ps[i].value);
      case None =>
    }
    match FirstIndexOfLabel(ps, UpdateLabel) {
      case Some(i) => assert ValueOfLabel(ps, UpdateLabel) == Some(ps[i].value);
      case None =>
    }
  }

  /** The semi-labelled tuple ("firstValue", secondLabel: 99, afterSecondLabel: 3.0, true). */
  const SemiLabeledTuple: Limn := Tuple([
    LabeledLimn(".0", Value("\"firstValue\"")),
    LabeledLimn("secondLabel", Value("99")),
    LabeledLimn("afterSecondLabel", Value("3.0")),
    LabeledLimn(".3", Value("true"))])

  lemma SemiLabeledTupleLookups()
    ensures Lookup(SemiLabeledTuple, "afterSecondLabel") == Some(Value("3.0"))
    ensures LookupInt(SemiLabeledTuple, 2) == Some(Value("3.0"))
    ensures LookupInt(SemiLabeledTuple, 4) == None
    ensures Lookup(SemiLabeledTuple, ".3") == Some(Value("true"))
  {
    SemiLabeledByName();
    SemiLabeledByIndex();
    SemiLabeledByPosition();
  }

  /** A label in the middle of the tuple finds its element. */
  lemma SemiLabeledByName()
    ensures Lookup(SemiLabeledTuple, "afterSecondLabel") == Some(Value("3.0"))
  {
    var ps := SemiLabeledTuple.tupleElements;
    assert ParseInt("afterSecondLabel").None?;
    assert FirstIndexOfLabel(ps, "afterSecondLabel") == Some(2) by {
      assert ps[0].name != "afterSecondLabel" && ps[1].name != "afterSecondLabel";
    }
  }

  /** Integer indices count every element, labelled or not, and stop at the end. */
  lemma SemiLabeledByIndex()
    ensures LookupInt(SemiLabeledTuple, 2) == Some(Value("3.0"))
    ensures LookupInt(SemiLabeledTuple, 4) == None
  {
    var ps := SemiLabeledTuple.tupleElements;
    LookupIntTuple(ps, 2);
    ParseIntDescription(4);
    assert FirstIndexOfLabel(ps, "") == None by {
      assert forall j :: 0 <= j < |ps| ==> ps[j].name != "";
    }
  }

  /** The positional label of an unlabelled element finds it. */
  lemma SemiLabeledByPosition()
    ensures Lookup(SemiLabeledTuple, ".3") == Some(Value("true"))
  {
    var ps := SemiLabeledTuple.tupleElements;
    assert ParseInt(".3").None?;
    assert FirstIndexOfLabel(ps, ".3") == Some(3) by {
      assert ps[0].name != ".3" && ps[1].name != ".3" && ps[2].name != ".3";
    }
  }

  /**
   * After diffing a two-dimensional array to one with a new row appended,
   * the new row is a record with only an update side; indexing into it
   * indexes into that side.
   */
  lemma DiffedLookupScenario()
    ensures var row := Collection([Value("\"New Element\"")]);
            LookupInt(Encode(Diff(None, Some(row))), 0)
              == Some(Encode(Diff(None, Some(Value("\"New Element\"")))))
  {
    var row := Collection([Value("\"New Element\"")]);
    LookupDiffRecord(Diff(None, Some(row)), "0");
    ParseIntDescription(0);
    assert LookupSide(Some(row), "0") == Some(Value("\"New Element\""));
  }
}
