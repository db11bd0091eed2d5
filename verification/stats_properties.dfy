/** The threaded statistics walk agrees with the compositional tally, and what follows from that. */
module StatsProperties {
  import opened Wrappers
  import opened Limns
  import opened Statistics

  lemma ApplyMerge(st: Stats, a: Tally, b: Tally, depth: int)
    ensures Apply(Apply(st, a, depth), b, depth) == Apply(st, Merge(a, b), depth)
  {
    assert (st.typeNames + a.names) + b.names == st.typeNames + (a.names + b.names);
  }

  /** Leaving a container whose children were walked one level deeper. */
  lemma EnterContainer(st: Stats, t: Tally, depth: int, inner: Stats, empty: bool)
    requires empty ==> inner == st && t == NoTally
    requires !empty ==> inner == Apply(st, t, depth + 1)
    ensures Deepest(inner, depth + 1) == Apply(st, Deeper(t), depth)
  {
    assert st.typeNames + {} == st.typeNames;
  }

  /** The same for a container that also records its type name. */
  lemma EnterNamed(st: Stats, name: string, t: Tally, depth: int, inner: Stats, empty: bool)
    requires empty ==> inner == Named(st, name) && t == NoTally
    requires !empty ==> inner == Apply(Named(st, name), t, depth + 1)
    ensures Deepest(inner, depth + 1) == Apply(st, Deeper(WithName(t, name)), depth)
  {
    assert st.typeNames + {name} + t.names == st.typeNames + (t.names + {name});
  }

  /** Walking a subtree adds exactly its tally, whatever was accumulated before and at whatever depth. */
  lemma {:induction false} FillIsTally(x: Limn, depth: int, st: Stats)
    ensures Fill(x, depth, st) == Apply(st, TallyOf(x), depth)
    decreases x, 2
  {
    match x {
      case Class(name, _, ps) =>
        FillLabeledIsTally(ps, depth + 1, Named(st, name));
        EnterNamed(st, name, TallyLabeled(ps), depth, FillLabeled(ps, depth + 1, Named(st, name)), ps == []);
      case Collection(es) =>
        FillElementsIsTally(es, depth + 1, st);
        EnterContainer(st, TallyElements(es), depth, FillElements(es, depth + 1, st), es == []);
      case Dictionary(kvs) =>
        FillValuesIsTally(kvs, depth + 1, st);
        EnterContainer(st, TallyValues(kvs), depth, FillValues(kvs, depth + 1, st), kvs == []);
      case Enum(name, _, av) =>
        FillEnumIsTally(x, depth, st);
      case Optional(w) =>
        if w.Some? {
          FillIsTally(w.value, depth, st);
        }
      case Set(es) =>
        FillElementsIsTally(es, depth + 1, st);
        EnterContainer(st, TallyElements(es), depth, FillElements(es, depth + 1, st), es == []);
      case Struct(name, ps) =>
        if name == DiffTypeName {
          FillDiffIsTally(x, depth, st);
        } else {
          FillLabeledIsTally(ps, depth + 1, Named(st, name));
          EnterNamed(st, name, TallyLabeled(ps), depth, FillLabeled(ps, depth + 1, Named(st, name)), ps == []);
        }
      case Tuple(ps) =>
        FillLabeledIsTally(ps, depth + 1, st);
        EnterContainer(st, TallyLabeled(ps), depth, FillLabeled(ps, depth + 1, st), ps == []);
      case Value(_) =>
        assert st.typeNames + {} == st.typeNames;
      case Omitted(_) =>
        assert st.typeNames + {} == st.typeNames;
    }
  }

  lemma {:induction false} FillEnumIsTally(x: Limn, depth: int, st: Stats)
    requires x.Enum?
    ensures Fill(x, depth, st) == Apply(st, TallyOf(x), depth)
    decreases x, 1
  {
    var named := Named(st, x.name);
    if x.associatedValue.Some? {
      FillIsTally(x.associatedValue.value, depth + 1, named);
      EnterNamed(st, x.name, TallyOf(x.associatedValue.value), depth, Fill(x.associatedValue.value, depth + 1, named), false);
    } else {
      EnterNamed(st, x.name, NoTally, depth, named, true);
    }
  }

  lemma {:induction false} FillDiffIsTally(x: Limn, depth: int, st: Stats)
    requires x.Struct? && x.name == DiffTypeName
    ensures Fill(x, depth, st) == Apply(st, TallyOf(x), depth)
    decreases x, 1
  {
    var ps := x.properties;
    var counted := st.(diffedEntriesCount := st.diffedEntriesCount + 1);
    match FirstIndexOfLabel(ps, UpdateLabel) {
      case Some(i) =>
        assert ps[i] in ps;
        FillIsTally(ps[i].value, depth, counted);
      case None =>
        assert st.typeNames + {} == st.typeNames;
    }
  }

  lemma {:induction false} FillLabeledIsTally(ps: seq<LabeledLimn>, depth: int, st: Stats)
    ensures FillLabeled(ps, depth, st) == if ps == [] then st else Apply(st, TallyLabeled(ps), depth)
    decreases ps, 0
  {
    if ps != [] {
      assert ps[0] in ps;
      var first := Fill(ps[0].value, depth, st);
      FillIsTally(ps[0].value, depth, st);
      FillLabeledIsTally(ps[1..], depth, first);
      if ps[1..] != [] {
        ApplyMerge(st, TallyOf(ps[0].value), TallyLabeled(ps[1..]), depth);
      } else {
        assert Merge(TallyOf(ps[0].value), NoTally) == TallyOf(ps[0].value);
      }
    }
  }

  lemma {:induction false} FillElementsIsTally(es: seq<Limn>, depth: int, st: Stats)
    ensures FillElements(es, depth, st) == if es == [] then st else Apply(st, TallyElements(es), depth)
    decreases es, 0
  {
    if es != [] {
      var first := Fill(es[0], depth, st);
      FillIsTally(es[0], depth, st);
      FillElementsIsTally(es[1..], depth, first);
      if es[1..] != [] {
        ApplyMerge(st, TallyOf(es[0]), TallyElements(es[1..]), depth);
      } else {
        assert Merge(TallyOf(es[0]), NoTally) == TallyOf(es[0]);
      }
    }
  }

  lemma {:induction false} FillValuesIsTally(kvs: seq<KeyedLimn>, depth: int, st: Stats)
    ensures FillValues(kvs, depth, st) == if kvs == [] then st else Apply(st, TallyValues(kvs), depth)
    decreases kvs, 0
  {
    if kvs != [] {
      var kv := kvs[0];
      assert kv in kvs && kv.value < kv;
      var first := Fill(kv.value, depth, st);
      FillIsTally(kv.value, depth, st);
      FillValuesIsTally(kvs[1..], depth, first);
      if kvs[1..] != [] {
        ApplyMerge(st, TallyOf(kv.value), TallyValues(kvs[1..]), depth);
      } else {
        assert Merge(TallyOf(kv.value), NoTally) == TallyOf(kv.value);
      }
    }
  }

  /**
   * The statistics of a tree: the counts and names of its tally, and a
   * maximum depth that is its height, but never below 1.
   */
  lemma StatsIsTally(x: Limn)
    ensures var t := TallyOf(x);
            StatsOf(x) == Stats(t.diffs, t.filtered, Max(1, t.height), t.names, t.unresolved)
  {
    FillIsTally(x, 0, InitialStats);
    assert {} + TallyOf(x).names == TallyOf(x).names;
  }

  /** Dictionary keys are never visited: replacing them changes no statistic. */
  lemma {:induction false} KeysNotVisited(kvs: seq<KeyedLimn>, other: seq<KeyedLimn>)
    requires |kvs| == |other| && forall i :: 0 <= i < |kvs| ==> kvs[i].value == other[i].value
    ensures StatsOf(Dictionary(kvs)) == StatsOf(Dictionary(other))
  {
    ValuesOnly(kvs, other);
    StatsIsTally(Dictionary(kvs));
    StatsIsTally(Dictionary(other));
  }

  lemma {:induction false} ValuesOnly(kvs: seq<KeyedLimn>, other: seq<KeyedLimn>)
    requires |kvs| == |other| && forall i :: 0 <= i < |kvs| ==> kvs[i].value == other[i].value
    ensures TallyValues(kvs) == TallyValues(other)
  {
    if kvs != [] {
      ValuesOnly(kvs[1..], other[1..]);
    }
  }

  /**
   * A diff record counts once and is walked through its update side only:
   * its original side never contributes, and it adds no depth of its own.
   */
  lemma DiffRecordStats(d: Diff)
    ensures var t := TallyOf(Encode(d));
            var u := if d.update.Some? then TallyOf(d.update.value) else NoTally;
            t == u.(diffs := u.diffs + 1)
  {
    DecodeEncode(d);
    var ps := Encode(d).properties;
    match FirstIndexOfLabel(ps, UpdateLabel) {
      case Some(i) =>
        assert ValueOfLabel(ps, UpdateLabel) == Some(ps[i].value);
      case None =>
    }
  }

  /** Two diff records that differ only in their original side have the same statistics. */
  lemma OriginalNotVisited(o1: Option<Limn>, o2: Option<Limn>, u: Option<Limn>)
    ensures StatsOf(Encode(Diff(o1, u))) == StatsOf(Encode(Diff(o2, u)))
  {
    DiffRecordStats(Diff(o1, u));
    DiffRecordStats(Diff(o2, u));
    StatsIsTally(Encode(Diff(o1, u)));
    StatsIsTally(Encode(Diff(o2, u)));
  }

  lemma OneProperty(x: Limn)
    requires x.Class? || (x.Struct? && x.name != DiffTypeName)
    requires |x.properties| == 1
    ensures TallyOf(x) == Deeper(WithName(TallyOf(x.properties[0].value), x.name))
  {
    var ps := x.properties;
    assert ps[1..] == [];
    assert TallyLabeled(ps) == Merge(TallyOf(ps[0].value), NoTally);
  }

  lemma TwinTuple(x: Limn)
    requires x.Tuple? && |x.tupleElements| == 2 && x.tupleElements[0].value == x.tupleElements[1].value
    ensures TallyOf(x).height == TallyOf(x.tupleElements[0].value).height + 1
    ensures TallyOf(x).names == TallyOf(x.tupleElements[0].value).names
  {
    var ps := x.tupleElements;
    assert ps[1..][1..] == [];
    assert TallyLabeled(ps[1..]) == Merge(TallyOf(ps[1].value), NoTally);
    assert TallyLabeled(ps) == Merge(TallyOf(ps[0].value), TallyLabeled(ps[1..]));
    var t := TallyOf(ps[0].value);
    assert t.names + (t.names + {}) == t.names;
  }

  lemma OneElement(x: Limn)
    requires x.Collection? && |x.elements| == 1
    ensures TallyOf(x) == Deeper(TallyOf(x.elements[0]))
  {
    assert x.elements[1..] == [];
    assert TallyElements(x.elements) == Merge(TallyOf(x.elements[0]), NoTally);
  }

  lemma OneEntry(x: Limn)
    requires x.Dictionary? && |x.keyValuePairs| == 1
    ensures TallyOf(x) == Deeper(TallyOf(x.keyValuePairs[0].value))
  {
    assert x.keyValuePairs[1..] == [];
    assert TallyValues(x.keyValuePairs) == Merge(TallyOf(x.keyValuePairs[0].value), NoTally);
  }

  /**
   * An optional dictionary mapping "dictionary" to an array holding one pair
   * of structs, each holding a class whose property is an optional enum: six
   * levels deep, since optionals add no level.
   */
  lemma MaxDepthScenario()
    ensures var e := Enum("A", "a", None);
            var b := Class("B", "0x1", [LabeledLimn("b", Optional(Some(e)))]);
            var c := Struct("C", [LabeledLimn("c", b)]);
            var pair := Tuple([LabeledLimn(".0", c), LabeledLimn(".1", c)]);
            var dictionary := Dictionary([KeyedLimn(Value("\"dictionary\""), Collection([pair]))]);
            StatsOf(Optional(Some(dictionary))).maxDepth == 6
            && StatsOf(dictionary).maxDepth == 6
            && StatsOf(Optional(Some(dictionary))).typeNames == {"A", "B", "C"}
  {
    var e := Enum("A", "a", None);
    var b := Class("B", "0x1", [LabeledLimn("b", Optional(Some(e)))]);
    var c := Struct("C", [LabeledLimn("c", b)]);
    var pair := Tuple([LabeledLimn(".0", c), LabeledLimn(".1", c)]);
    var dictionary := Dictionary([KeyedLimn(Value("\"dictionary\""), Collection([pair]))]);
    assert TallyOf(e) == Tally(0, 0, 0, 1, {"A"});
    OneProperty(b);
    OneProperty(c);
    TwinTuple(pair);
    OneElement(Collection([pair]));
    OneEntry(dictionary);
    assert TallyOf(dictionary).height == 6;
    assert TallyOf(dictionary).names == {"A", "B", "C"};
    StatsIsTally(dictionary);
    StatsIsTally(Optional(Some(dictionary)));
  }
}
