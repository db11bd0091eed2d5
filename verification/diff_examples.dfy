/**
 * The dictionary case of the diff tests, worked through entry by entry: the
 * old entries in order, then the new-only entries.
 */
module DiffExamples {
  import opened Wrappers
  import opened Limns
  import opened Diffing
  import opened DiffEntries

  // The keys and values of the dictionary scenario, as reflection describes them.
  const V1 := Value("1")
  const V2 := Value("2")
  const V4 := Value("4")
  const V5 := Value("5")
  const V23 := Value("23")
  const V25 := Value("25")
  const QS2 := "\"2\""
  const QS4 := "\"4\""
  const QS56 := "\"56\""
  const Q1 := Value("\"1\"")
  const Q2 := Value(QS2)
  const Q4 := Value(QS4)
  const Q5 := Value("\"5\"")
  const Q24 := Value("\"24\"")
  const Q56 := Value(QS56)

  /** `[2: "2", 23: "24", 4: "4", 5: "5"]` as reflection describes it. */
  function DictionaryA(): seq<KeyedLimn> {
    [ KeyedLimn(V2, Q2), KeyedLimn(V23, Q24), KeyedLimn(V4, Q4), KeyedLimn(V5, Q5) ]
  }

  /** `[1: "1", 2: "56", 25: "24", 4: "4"]` as reflection describes it. */
  function DictionaryB(): seq<KeyedLimn> {
    [ KeyedLimn(V1, Q1), KeyedLimn(V2, Q56), KeyedLimn(V25, Q24), KeyedLimn(V4, Q4) ]
  }

  // Where each key of the scenario sits among the entries of either dictionary.

  lemma MatchKeyB1()
    ensures MatchKey(DictionaryB(), V1) == Some(0)
  {
  }

  lemma MatchKeyB2()
    ensures MatchKey(DictionaryB(), V2) == Some(1)
  {
    var b := DictionaryB();
    assert b[1..][0] == b[1];
  }

  lemma MatchKeyB25()
    ensures MatchKey(DictionaryB(), V25) == Some(2)
  {
    var b := DictionaryB();
    assert b[1..][1..][0] == b[2];
  }

  lemma MatchKeyB4()
    ensures MatchKey(DictionaryB(), V4) == Some(3)
  {
    var b := DictionaryB();
    assert b[1..][1..][1..] == [b[3]];
  }

  lemma MatchKeyB23()
    ensures MatchKey(DictionaryB(), V23).None?
  {
    var b := DictionaryB();
    assert b[1..][1..][1..] == [b[3]];
  }

  lemma MatchKeyB5()
    ensures MatchKey(DictionaryB(), V5).None?
  {
    var b := DictionaryB();
    assert b[1..][1..][1..] == [b[3]];
  }

  lemma MatchKeyA2()
    ensures MatchKey(DictionaryA(), V2) == Some(0)
  {
  }

  lemma MatchKeyA4()
    ensures MatchKey(DictionaryA(), V4) == Some(2)
  {
    var a := DictionaryA();
    assert a[1..][1..][0] == a[2];
  }

  lemma MatchKeyA1()
    ensures MatchKey(DictionaryA(), V1).None?
  {
    var a := DictionaryA();
    assert a[1..][1..][1..] == [a[3]];
  }

  lemma MatchKeyA25()
    ensures MatchKey(DictionaryA(), V25).None?
  {
    var a := DictionaryA();
    assert a[1..][1..][1..] == [a[3]];
  }

  /** One step of walking the old entries: an entry with a value contributes its diffed or removed form. */
  lemma KeyedFromStep(olds: seq<KeyedLimn>, news: seq<KeyedLimn>, i: nat, d: Differ)
    requires ValidDiffer(d) && i < |olds| && !IsOmitted(olds[i].value)
    ensures DiffKeyedFrom(olds, news, i, d) == [OldEntry(olds[i], news, d)] + DiffKeyedFrom(olds, news, i + 1, d)
  {
  }

  /** One step of walking the new entries: the entry is appended exactly when it is new-only. */
  lemma InsertedStep(news: seq<KeyedLimn>, olds: seq<KeyedLimn>, j: nat)
    requires j < |news|
    ensures InsertedKeyed(news, olds, j) ==
      (if NewOnlyEntry(news, olds, j) then [AddedEntry(news[j])] else []) + InsertedKeyed(news, olds, j + 1)
  {
  }

  /** Two plain values diff to the value when their descriptions agree and to a replacement otherwise. */
  lemma ValuesDiff(x: string, y: string, d: Differ)
    requires ValidDiffer(d)
    ensures DiffRec(Value(x), Value(y), d) == if x == y then Value(x) else Replacement(Value(x), Value(y))
  {
  }

  lemma PrependFour<T>(w: T, x: T, y: T, z: T)
    ensures [w] + [x, y, z] == [w, x, y, z]
  {
  }

  lemma PrependThree<T>(x: T, y: T, z: T)
    ensures [x] + [y, z] == [x, y, z]
  {
  }

  lemma AppendTwo<T>(w: T, x: T, y: T, z: T, u: T, v: T)
    ensures [w, x, y, z] + [u, v] == [w, x, y, z, u, v]
  {
  }

  lemma PrependTwo<T>(x: T, y: T)
    ensures [x] + [y] == [x, y] && [] + [x, y] == [x, y]
  {
  }

  lemma ScenarioOld3(d: Differ)
    requires ValidDiffer(d)
    ensures DiffKeyedFrom(DictionaryA(), DictionaryB(), 3, d) == [ KeyedLimn(Removal(V5), Removal(Q5)) ]
  {
    var a, b := DictionaryA(), DictionaryB();
    MatchKeyB5();
    assert OldEntry(a[3], b, d) == KeyedLimn(Removal(V5), Removal(Q5));
    KeyedFromStep(a, b, 3, d);
  }

  lemma ScenarioOld2(d: Differ)
    requires ValidDiffer(d)
    ensures DiffKeyedFrom(DictionaryA(), DictionaryB(), 2, d) ==
      [ KeyedLimn(V4, Q4), KeyedLimn(Removal(V5), Removal(Q5)) ]
  {
    var a, b := DictionaryA(), DictionaryB();
    MatchKeyB4();
    ScenarioOld3(d);
    assert b[3] == a[2];
    assert OldEntry(a[2], b, d) == KeyedLimn(DiffRec(a[2].key, a[2].key, d), DiffRec(a[2].value, a[2].value, d));
    ValuesDiff("4", "4", d);
    ValuesDiff(QS4, QS4, d);
    KeyedFromStep(a, b, 2, d);
    PrependTwo(KeyedLimn(V4, Q4), KeyedLimn(Removal(V5), Removal(Q5)));
  }

  lemma ScenarioOld1(d: Differ)
    requires ValidDiffer(d)
    ensures DiffKeyedFrom(DictionaryA(), DictionaryB(), 1, d) ==
      [ KeyedLimn(Removal(V23), Removal(Q24)), KeyedLimn(V4, Q4), KeyedLimn(Removal(V5), Removal(Q5)) ]
  {
    var a, b := DictionaryA(), DictionaryB();
    MatchKeyB23();
    ScenarioOld2(d);
    assert OldEntry(a[1], b, d) == KeyedLimn(Removal(V23), Removal(Q24));
    KeyedFromStep(a, b, 1, d);
    PrependThree(KeyedLimn(Removal(V23), Removal(Q24)), KeyedLimn(V4, Q4), KeyedLimn(Removal(V5), Removal(Q5)));
  }

  lemma ScenarioOldEntries(d: Differ)
    requires ValidDiffer(d)
    ensures DiffKeyedFrom(DictionaryA(), DictionaryB(), 0, d) ==
      [ KeyedLimn(V2, Replacement(Q2, Q56)), KeyedLimn(Removal(V23), Removal(Q24)),
        KeyedLimn(V4, Q4), KeyedLimn(Removal(V5), Removal(Q5)) ]
  {
    var a, b := DictionaryA(), DictionaryB();
    MatchKeyB2();
    ScenarioOld1(d);
    assert OldEntry(a[0], b, d) == KeyedLimn(DiffRec(V2, V2, d), DiffRec(Q2, Q56, d));
    ValuesDiff("2", "2", d);
    ValuesDiff(QS2, QS56, d);
    KeyedFromStep(a, b, 0, d);
    PrependFour(KeyedLimn(V2, Replacement(Q2, Q56)), KeyedLimn(Removal(V23), Removal(Q24)),
      KeyedLimn(V4, Q4), KeyedLimn(Removal(V5), Removal(Q5)));
  }

  lemma ScenarioNew2()
    ensures InsertedKeyed(DictionaryB(), DictionaryA(), 2) == [ KeyedLimn(Addition(V25), Addition(Q24)) ]
  {
    var a, b := DictionaryA(), DictionaryB();
    MatchKeyB4();
    MatchKeyA4();
    InsertedStep(b, a, 3);
    MatchKeyB25();
    MatchKeyA25();
    InsertedStep(b, a, 2);
  }

  lemma ScenarioNewEntries()
    ensures InsertedKeyed(DictionaryB(), DictionaryA(), 0) ==
      [ KeyedLimn(Addition(V1), Addition(Q1)), KeyedLimn(Addition(V25), Addition(Q24)) ]
  {
    var a, b := DictionaryA(), DictionaryB();
    ScenarioNew2();
    MatchKeyB2();
    MatchKeyA2();
    InsertedStep(b, a, 1);
    MatchKeyB1();
    MatchKeyA1();
    InsertedStep(b, a, 0);
    PrependTwo(KeyedLimn(Addition(V1), Addition(Q1)), KeyedLimn(Addition(V25), Addition(Q24)));
  }

  /**
   * Diffing the first dictionary to the second: key 2 has its value replaced,
   * keys 23 and 5 are removed with their values, key 4 is unchanged, and keys
   * 1 and 25 are added with their values. The original compares the entries
   * after sorting both sides by hash, so only which entries appear matters.
   */
  lemma DictionaryScenario(d: Differ)
    requires ValidDiffer(d)
    ensures DiffRec(Dictionary(DictionaryA()), Dictionary(DictionaryB()), d) == Dictionary(
      [ KeyedLimn(V2, Replacement(Q2, Q56)), KeyedLimn(Removal(V23), Removal(Q24)),
        KeyedLimn(V4, Q4), KeyedLimn(Removal(V5), Removal(Q5)),
        KeyedLimn(Addition(V1), Addition(Q1)), KeyedLimn(Addition(V25), Addition(Q24)) ])
  {
    var a, b := DictionaryA(), DictionaryB();
    assert DiffRec(Dictionary(a), Dictionary(b), d) == Dictionary(DiffKeyedFrom(a, b, 0, d) + InsertedKeyed(b, a, 0));
    ScenarioOldEntries(d);
    ScenarioNewEntries();
    AppendTwo(KeyedLimn(V2, Replacement(Q2, Q56)), KeyedLimn(Removal(V23), Removal(Q24)),
      KeyedLimn(V4, Q4), KeyedLimn(Removal(V5), Removal(Q5)),
      KeyedLimn(Addition(V1), Addition(Q1)), KeyedLimn(Addition(V25), Addition(Q24)));
  }
}
