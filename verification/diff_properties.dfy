/**
 * What diffing promises: diffing a tree against itself changes nothing, and a
 * diff undiffs back to either of its inputs.
 *
 * The round trip needs inputs of the shape that reflection produces: no diff
 * records, unique property labels, dictionary keys and set members, and no
 * omitted placeholders where diffing filters them out. It also needs the two
 * inputs to line up where diffing pairs children by position or label
 * (`Aligned`): where they do not, the source itself does not restore the
 * original (see `InsertedPropertyNotRecorded`).
 */
module DiffProperties {
  import opened Wrappers
  import opened Limns
  import opened EditScripts
  import opened Sequences
  import opened Undiffing
  import opened Diffing

  /** The differ reports no edits between equal sequences. */
  ghost predicate MinimalDiffer(d: Differ) {
    forall xs :: d(xs, xs) == EmptyScript
  }

  predicate DistinctLabels(ps: seq<LabeledLimn>) {
    forall i, j :: 0 <= i < j < |ps| ==> ps[i].name != ps[j].name
  }

  predicate DistinctKeys(kvs: seq<KeyedLimn>) {
    forall i, j :: 0 <= i < j < |kvs| ==> kvs[i].key != kvs[j].key
  }

  /**
   * Unique labels, keys and set members everywhere, and no omitted
   * placeholder as a property value, dictionary value or set member.
   */
  predicate WellFormed(x: Limn) {
    match x
    case Class(_, _, ps) =>
      DistinctLabels(ps) && forall i :: 0 <= i < |ps| ==> !IsOmitted(ps[i].value) && WellFormed(ps[i].value)
    case Collection(es) => forall i :: 0 <= i < |es| ==> WellFormed(es[i])
    case Dictionary(kvs) =>
      DistinctKeys(kvs) &&
      forall i :: 0 <= i < |kvs| ==> !IsOmitted(kvs[i].value) && WellFormed(kvs[i].key) && WellFormed(kvs[i].value)
    case Enum(_, _, av) => av.Some? ==> WellFormed(av.value)
    case Optional(w) => w.Some? ==> WellFormed(w.value)
    case Set(es) => NoDuplicates(es) && forall i :: 0 <= i < |es| ==> !IsOmitted(es[i]) && WellFormed(es[i])
    case Struct(_, ps) =>
      DistinctLabels(ps) && forall i :: 0 <= i < |ps| ==> !IsOmitted(ps[i].value) && WellFormed(ps[i].value)
    case Tuple(ps) => forall i :: 0 <= i < |ps| ==> WellFormed(ps[i].value)
    case Value(_) => true
    case Omitted(_) => true
  }

  predicate Clean(x: Limn) {
    Plain(x) && NoNilEntries(x) && WellFormed(x)
  }

  /**
   * Two trees line up where diffing pairs their children: equal label
   * sequences for classes and structs, equal key sequences for dictionaries,
   * equal payload presence for the same enum case, and a new set that lists
   * the surviving old members first, in old order, and then the added ones.
   * Ordered collections may be edited freely, so every old element must line
   * up with every new one. Nodes of different kinds always line up: they are
   * replaced whole.
   */
  predicate Aligned(a: Limn, b: Limn) {
    match a
    case Class(_, _, ps) =>
      b.Class? ==> Labels(ps) == Labels(b.properties)
                   && forall i :: 0 <= i < |ps| ==> Aligned(ps[i].value, b.properties[i].value)
    case Collection(es) =>
      b.Collection? ==> forall i, j :: 0 <= i < |es| && 0 <= j < |b.elements| ==> Aligned(es[i], b.elements[j])
    case Dictionary(kvs) =>
      b.Dictionary? ==> |kvs| == |b.keyValuePairs|
                        && forall i :: 0 <= i < |kvs| ==>
                             kvs[i].key == b.keyValuePairs[i].key && Aligned(kvs[i].value, b.keyValuePairs[i].value)
    case Enum(n, c, av) =>
      b.Enum? && b.name == n && b.caseName == c ==>
        (av.Some? <==> b.associatedValue.Some?) && (av.Some? ==> Aligned(av.value, b.associatedValue.value))
    case Optional(w) =>
      b.Optional? && w.Some? && b.wrapped.Some? ==> Aligned(w.value, b.wrapped.value)
    case Set(es) =>
      b.Set? ==> b.elements == Keep(es, b.elements) + Drop(b.elements, es)
    case Struct(_, ps) =>
      b.Struct? ==> Labels(ps) == Labels(b.properties)
                    && forall i :: 0 <= i < |ps| ==> Aligned(ps[i].value, b.properties[i].value)
    case Tuple(ps) =>
      b.Tuple? && Labels(ps) == Labels(b.tupleElements) ==>
        forall i :: 0 <= i < |ps| ==> Aligned(ps[i].value, b.tupleElements[i].value)
    case Value(_) => true
    case Omitted(_) => true
  }

  // ---------------------------------------------------------------------------
  // Small facts
  // ---------------------------------------------------------------------------

  /** A tree that contains diffing information is not plain. */
  lemma {:induction false} ContainsDiffNotPlain(x: Limn)
    requires ContainsDiff(x)
    ensures !Plain(x)
    decreases x
  {
    match x
    case Class(_, _, ps) =>
      var i :| 0 <= i < |ps| && ContainsDiff(ps[i].value);
      ContainsDiffNotPlain(ps[i].value);
    case Collection(es) =>
      var i :| 0 <= i < |es| && ContainsDiff(es[i]);
      ContainsDiffNotPlain(es[i]);
    case Dictionary(kvs) =>
      var i :| 0 <= i < |kvs| && ContainsDiff(kvs[i].value);
      var kv := kvs[i];
      assert kv in kvs && kv.value < kv;
      ContainsDiffNotPlain(kv.value);
    case Enum(_, _, av) => ContainsDiffNotPlain(av.value);
    case Optional(w) => ContainsDiffNotPlain(w.value);
    case Set(es) =>
      var i :| 0 <= i < |es| && ContainsDiff(es[i]);
      ContainsDiffNotPlain(es[i]);
    case Struct(n, ps) =>
      if n != DiffTypeName {
        var i :| 0 <= i < |ps| && ContainsDiff(ps[i].value);
        ContainsDiffNotPlain(ps[i].value);
      }
    case Tuple(ps) =>
      var i :| 0 <= i < |ps| && ContainsDiff(ps[i].value);
      ContainsDiffNotPlain(ps[i].value);
  }

  /** The converse fails: a diff record used as a dictionary key is not seen. */
  lemma ContainsDiffIgnoresKeys()
    ensures var x := Dictionary([KeyedLimn(Addition(Value("k")), Value("v"))]);
            !ContainsDiff(x) && !Plain(x)
  {
    var x := Dictionary([KeyedLimn(Addition(Value("k")), Value("v"))]);
    assert x.keyValuePairs[0].value == Value("v");
    assert !Plain(x.keyValuePairs[0].key);
  }

  lemma CleanChildren(x: Limn)
    requires Clean(x)
    ensures x.Class? || x.Struct? ==> forall i :: 0 <= i < |x.properties| ==> Clean(x.properties[i].value)
    ensures x.Tuple? ==> forall i :: 0 <= i < |x.tupleElements| ==> Clean(x.tupleElements[i].value)
    ensures x.Collection? || x.Set? ==> forall i :: 0 <= i < |x.elements| ==> Clean(x.elements[i])
    ensures x.Dictionary? ==> forall i :: 0 <= i < |x.keyValuePairs| ==>
              Clean(x.keyValuePairs[i].key) && Clean(x.keyValuePairs[i].value)
    ensures x.Enum? && x.associatedValue.Some? ==> Clean(x.associatedValue.value)
    ensures x.Optional? && x.wrapped.Some? ==> Clean(x.wrapped.value)
  {
  }

  // ---------------------------------------------------------------------------
  // Diffing a tree against itself
  // ---------------------------------------------------------------------------

  /** Diffing a well-formed tree against itself returns the tree unchanged. */
  lemma {:induction false} DiffRecIdentity(x: Limn, d: Differ)
    requires ValidDiffer(d) && MinimalDiffer(d) && WellFormed(x)
    ensures DiffRec(x, x, d) == x
    decreases x, 1
  {
    match x
    case Class(_, _, ps) => DiffLabeledIdentity(ps, d);
    case Collection(es) =>
      assert d(es, es) == EmptyScript;
      KeptNothing(es);
      DiffWalkIdentity(es, d, 0);
    case Dictionary(kvs) => DiffKeyedIdentity(kvs, d);
    case Enum(_, _, av) => if av.Some? { DiffRecIdentity(av.value, d); }
    case Optional(w) => if w.Some? { DiffRecIdentity(w.value, d); }
    case Set(es) => DiffSetIdentity(es);
    case Struct(_, ps) => DiffLabeledIdentity(ps, d);
    case Tuple(ps) => DiffZipIdentity(ps, d);
    case Value(_) =>
    case Omitted(_) =>
  }

  lemma {:induction false} DiffWalkIdentity(es: seq<Limn>, d: Differ, o: nat)
    requires ValidDiffer(d) && MinimalDiffer(d) && o <= |es|
    requires forall i :: 0 <= i < |es| ==> WellFormed(es[i])
    requires Synced(EmptyScript, es, es, o, o)
    ensures DiffWalk(es, es, EmptyScript, o, o, d) == es[o..]
    decreases es, |es| - o
  {
    if o < |es| {
      StepFacts(EmptyScript, es, es, o, o);
      DiffRecIdentity(es[o], d);
      DiffWalkIdentity(es, d, o + 1);
      assert es[o..] == [es[o]] + es[o + 1..];
    }
  }

  lemma {:induction false} DiffLabeledIdentity(ps: seq<LabeledLimn>, d: Differ)
    requires ValidDiffer(d) && MinimalDiffer(d) && DistinctLabels(ps)
    requires forall i :: 0 <= i < |ps| ==> !IsOmitted(ps[i].value) && WellFormed(ps[i].value)
    ensures DiffLabeled(ps, ps, d) == ps
    decreases ps, |ps| + 1
  {
    DiffLabeledFromIdentity(ps, d, 0);
    NothingInsertedLabeled(ps, ps, 0);
  }

  lemma {:induction false} DiffLabeledFromIdentity(ps: seq<LabeledLimn>, d: Differ, i: nat)
    requires ValidDiffer(d) && MinimalDiffer(d) && DistinctLabels(ps) && i <= |ps|
    requires forall k :: 0 <= k < |ps| ==> !IsOmitted(ps[k].value) && WellFormed(ps[k].value)
    ensures DiffLabeledFrom(ps, ps, i, d) == ps[i..]
    decreases ps, |ps| - i
  {
    if i < |ps| {
      var p := ps[i];
      DiffLabeledFromIdentity(ps, d, i + 1);
      MatchLabelUnique(ps, i);
      DiffRecIdentity(p.value, d);
      DiffLabeledFromMatched(ps, ps, i, i, d);
      assert LabeledLimn(p.name, p.value) == p;
      SuffixCons(ps, i);
    }
  }

  /** A pair with a value whose label is matched is diffed against its match, in front of the rest. */
  lemma DiffLabeledFromMatched(olds: seq<LabeledLimn>, news: seq<LabeledLimn>, i: nat, j: nat, d: Differ)
    requires ValidDiffer(d) && i < |olds| && j < |news| && !IsOmitted(olds[i].value)
    requires MatchLabel(news, olds[i].name) == Some(j)
    ensures DiffLabeledFrom(olds, news, i, d) ==
      [LabeledLimn(olds[i].name, DiffRec(olds[i].value, news[j].value, d))] + DiffLabeledFrom(olds, news, i + 1, d)
  {
  }

  /** An entry with a value whose key is matched is diffed against its match, in front of the rest. */
  lemma DiffKeyedFromMatched(olds: seq<KeyedLimn>, news: seq<KeyedLimn>, i: nat, j: nat, d: Differ)
    requires ValidDiffer(d) && i < |olds| && j < |news| && !IsOmitted(olds[i].value)
    requires MatchKey(news, olds[i].key) == Some(j)
    ensures DiffKeyedFrom(olds, news, i, d) ==
      [KeyedLimn(DiffRec(olds[i].key, news[j].key, d), DiffRec(olds[i].value, news[j].value, d))]
        + DiffKeyedFrom(olds, news, i + 1, d)
  {
  }

  /** With unique labels, a pair with a value is the match for its own label. */
  lemma MatchLabelUnique(ps: seq<LabeledLimn>, i: nat)
    requires DistinctLabels(ps) && i < |ps| && !IsOmitted(ps[i].value)
    ensures MatchLabel(ps, ps[i].name) == Some(i)
  {
    var r := MatchLabel(ps, ps[i].name);
    assert r.Some?;
  }

  /** With unique keys, an entry with a value is the match for its own key. */
  lemma MatchKeyUnique(kvs: seq<KeyedLimn>, i: nat)
    requires DistinctKeys(kvs) && i < |kvs| && !IsOmitted(kvs[i].value)
    ensures MatchKey(kvs, kvs[i].key) == Some(i)
  {
    var r := MatchKey(kvs, kvs[i].key);
    assert r.Some?;
  }

  /** No new pair is inserted when every labelled new value has an old counterpart. */
  lemma {:induction false} NothingInsertedLabeled(news: seq<LabeledLimn>, olds: seq<LabeledLimn>, j: nat)
    requires j <= |news|
    requires forall k :: 0 <= k < |news| && !IsOmitted(news[k].value) ==> MatchLabel(olds, news[k].name).Some?
    ensures InsertedLabeled(news, olds, j) == []
    decreases |news| - j
  {
    if j < |news| {
      NothingInsertedLabeled(news, olds, j + 1);
    }
  }

  lemma {:induction false} DiffKeyedIdentity(kvs: seq<KeyedLimn>, d: Differ)
    requires ValidDiffer(d) && MinimalDiffer(d) && DistinctKeys(kvs)
    requires forall i :: 0 <= i < |kvs| ==> !IsOmitted(kvs[i].value) && WellFormed(kvs[i].key) && WellFormed(kvs[i].value)
    ensures DiffKeyed(kvs, kvs, d) == kvs
    decreases kvs, |kvs| + 1
  {
    DiffKeyedFromIdentity(kvs, d, 0);
    NothingInsertedKeyed(kvs, kvs, 0);
  }

  lemma {:induction false} DiffKeyedFromIdentity(kvs: seq<KeyedLimn>, d: Differ, i: nat)
    requires ValidDiffer(d) && MinimalDiffer(d) && DistinctKeys(kvs) && i <= |kvs|
    requires forall k :: 0 <= k < |kvs| ==> !IsOmitted(kvs[k].value) && WellFormed(kvs[k].key) && WellFormed(kvs[k].value)
    ensures DiffKeyedFrom(kvs, kvs, i, d) == kvs[i..]
    decreases kvs, |kvs| - i
  {
    if i < |kvs| {
      DiffKeyedFromIdentity(kvs, d, i + 1);
      var kv := kvs[i];
      assert kv in kvs && kv.key < kv && kv.value < kv;
      MatchKeyUnique(kvs, i);
      DiffRecIdentity(kv.key, d);
      DiffRecIdentity(kv.value, d);
      DiffKeyedFromMatched(kvs, kvs, i, i, d);
      assert KeyedLimn(kv.key, kv.value) == kv;
      SuffixCons(kvs, i);
    }
  }

  lemma {:induction false} NothingInsertedKeyed(news: seq<KeyedLimn>, olds: seq<KeyedLimn>, j: nat)
    requires j <= |news|
    requires forall k :: 0 <= k < |news| && !IsOmitted(news[k].value) ==> MatchKey(olds, news[k].key).Some?
    ensures InsertedKeyed(news, olds, j) == []
    decreases |news| - j
  {
    if j < |news| {
      NothingInsertedKeyed(news, olds, j + 1);
    }
  }

  lemma {:induction false} DiffZipIdentity(ps: seq<LabeledLimn>, d: Differ)
    requires ValidDiffer(d) && MinimalDiffer(d)
    requires forall i :: 0 <= i < |ps| ==> WellFormed(ps[i].value)
    ensures DiffZip(ps, ps, d) == ps
    decreases ps, 0
  {
    if ps != [] {
      DiffRecIdentity(ps[0].value, d);
      DiffZipIdentity(ps[1..], d);
      assert ps == [ps[0]] + ps[1..];
    }
  }

  lemma {:induction false} NonOmittedAll(es: seq<Limn>)
    requires forall i :: 0 <= i < |es| ==> !IsOmitted(es[i])
    ensures NonOmitted(es) == es
  {
    if es != [] {
      NonOmittedAll(es[1..]);
      assert es == [es[0]] + es[1..];
    }
  }

  lemma SetMembersOfSet(es: seq<Limn>)
    requires NoDuplicates(es)
    requires forall i :: 0 <= i < |es| ==> !IsOmitted(es[i])
    ensures SetMembers(es) == es
  {
    NonOmittedAll(es);
    DistinctOfDistinct(es);
  }

  lemma DiffSetIdentity(es: seq<Limn>)
    requires NoDuplicates(es)
    requires forall i :: 0 <= i < |es| ==> !IsOmitted(es[i])
    ensures DiffSetElements(es, es) == es
  {
    SetMembersOfSet(es);
    DropAll(es, es);
    assert Additions([]) == [];
  }

  /** A clean tree diffed against itself carries no diffing information. */
  lemma DiffSelfHasNoDiff(x: Limn, d: Differ)
    requires ValidDiffer(d) && MinimalDiffer(d) && Clean(x)
    ensures !ContainsDiff(DiffRec(x, x, d)) && Plain(DiffRec(x, x, d))
  {
    DiffRecIdentity(x, d);
    if ContainsDiff(x) {
      ContainsDiffNotPlain(x);
    }
  }

  // ---------------------------------------------------------------------------
  // The round trip
  // ---------------------------------------------------------------------------

  lemma ReplacementUndiff(a: Limn, b: Limn)
    requires Clean(a) && Clean(b)
    ensures Undiff(Replacement(a, b), ToOriginal) == Some(a)
    ensures Undiff(Replacement(a, b), ToUpdate) == Some(b)
  {
    UndiffEncode(Diff(Some(a), Some(b)), ToOriginal);
    UndiffEncode(Diff(Some(a), Some(b)), ToUpdate);
    UndiffIdentity(a, ToOriginal);
    UndiffIdentity(b, ToUpdate);
  }

  lemma RemovalUndiff(a: Limn)
    requires Clean(a)
    ensures Undiff(Removal(a), ToOriginal) == Some(a)
    ensures Undiff(Removal(a), ToUpdate) == None
  {
    UndiffEncode(Diff(Some(a), None), ToOriginal);
    UndiffEncode(Diff(Some(a), None), ToUpdate);
    UndiffIdentity(a, ToOriginal);
  }

  lemma AdditionUndiff(b: Limn)
    requires Clean(b)
    ensures Undiff(Addition(b), ToOriginal) == None
    ensures Undiff(Addition(b), ToUpdate) == Some(b)
  {
    UndiffEncode(Diff(None, Some(b)), ToOriginal);
    UndiffEncode(Diff(None, Some(b)), ToUpdate);
    UndiffIdentity(b, ToUpdate);
  }

  /**
   * Undiffing a diff of two clean, aligned trees gives back the first tree
   * towards the original and the second towards the update.
   */
  lemma {:induction false} RoundTrip(a: Limn, b: Limn, d: Differ)
    requires ValidDiffer(d) && MinimalDiffer(d)
    requires Clean(a) && Clean(b) && Aligned(a, b)
    ensures Undiff(DiffRec(a, b, d), ToOriginal) == Some(a)
    ensures Undiff(DiffRec(a, b, d), ToUpdate) == Some(b)
    decreases a, 2
  {
    if !SameKind(a, b) {
      ReplacementUndiff(a, b);
    } else {
      match a
      case Class(_, _, _) => RoundTripClass(a, b, d);
      case Collection(_) => RoundTripCollection(a, b, d);
      case Dictionary(_) => RoundTripDictionary(a, b, d);
      case Enum(_, _, _) => RoundTripEnum(a, b, d);
      case Optional(_) => RoundTripOptional(a, b, d);
      case Set(_) => RoundTripSet(a, b);
      case Struct(_, _) => RoundTripStruct(a, b, d);
      case Tuple(_) => RoundTripTuple(a, b, d);
      case Value(_) => if a != b { ReplacementUndiff(a, b); } else { UndiffIdentity(a, ToOriginal); }
      case Omitted(_) => if a != b { ReplacementUndiff(a, b); } else { UndiffIdentity(a, ToOriginal); }
    }
  }

  lemma {:induction false} RoundTripClass(a: Limn, b: Limn, d: Differ)
    requires ValidDiffer(d) && MinimalDiffer(d)
    requires Clean(a) && Clean(b) && Aligned(a, b) && a.Class? && b.Class?
    ensures Undiff(DiffRec(a, b, d), ToOriginal) == Some(a)
    ensures Undiff(DiffRec(a, b, d), ToUpdate) == Some(b)
    decreases a, 1
  {
    CleanChildren(a);
    CleanChildren(b);
    RoundTripLabeled(a.properties, b.properties, d);
    var props := DiffLabeled(a.properties, b.properties, d);
    if a.name != b.name || a.address != b.address {
      var o := Class(a.name, a.address, props);
      var u := Class(b.name, b.address, props);
      UndiffEncode(Diff(Some(o), Some(u)), ToOriginal);
      UndiffEncode(Diff(Some(o), Some(u)), ToUpdate);
    }
  }

  lemma {:induction false} RoundTripStruct(a: Limn, b: Limn, d: Differ)
    requires ValidDiffer(d) && MinimalDiffer(d)
    requires Clean(a) && Clean(b) && Aligned(a, b) && a.Struct? && b.Struct?
    ensures Undiff(DiffRec(a, b, d), ToOriginal) == Some(a)
    ensures Undiff(DiffRec(a, b, d), ToUpdate) == Some(b)
    decreases a, 1
  {
    CleanChildren(a);
    CleanChildren(b);
    RoundTripLabeled(a.properties, b.properties, d);
    var props := DiffLabeled(a.properties, b.properties, d);
    if a.name != b.name {
      var o := Struct(a.name, props);
      var u := Struct(b.name, props);
      UndiffEncode(Diff(Some(o), Some(u)), ToOriginal);
      UndiffEncode(Diff(Some(o), Some(u)), ToUpdate);
    }
  }

  lemma {:induction false} RoundTripLabeled(ps: seq<LabeledLimn>, qs: seq<LabeledLimn>, d: Differ)
    requires ValidDiffer(d) && MinimalDiffer(d)
    requires Labels(ps) == Labels(qs) && DistinctLabels(ps) && DistinctLabels(qs)
    requires forall i :: 0 <= i < |ps| ==> !IsOmitted(ps[i].value) && Clean(ps[i].value)
    requires forall i :: 0 <= i < |qs| ==> !IsOmitted(qs[i].value) && Clean(qs[i].value)
    requires forall i :: 0 <= i < |ps| ==> Aligned(ps[i].value, qs[i].value)
    ensures UndiffLabeled(DiffLabeled(ps, qs, d), ToOriginal) == ps
    ensures UndiffLabeled(DiffLabeled(ps, qs, d), ToUpdate) == qs
    decreases ps, |ps| + 1
  {
    RoundTripLabeledFrom(ps, qs, d, 0);
    forall k | 0 <= k < |qs|
      ensures MatchLabel(ps, qs[k].name).Some?
    {
      assert Labels(ps)[k] == Labels(qs)[k];
      MatchLabelUnique(ps, k);
    }
    NothingInsertedLabeled(qs, ps, 0);
    var from := DiffLabeledFrom(ps, qs, 0, d);
    assert DiffLabeled(ps, qs, d) == from + InsertedLabeled(qs, ps, 0);
    assert from + [] == from;
    assert ps[0..] == ps && qs[0..] == qs;
  }

  lemma {:induction false} RoundTripLabeledFrom(ps: seq<LabeledLimn>, qs: seq<LabeledLimn>, d: Differ, i: nat)
    requires ValidDiffer(d) && MinimalDiffer(d) && i <= |ps|
    requires Labels(ps) == Labels(qs) && DistinctLabels(qs)
    requires forall k :: 0 <= k < |ps| ==> !IsOmitted(ps[k].value) && Clean(ps[k].value)
    requires forall k :: 0 <= k < |qs| ==> !IsOmitted(qs[k].value) && Clean(qs[k].value)
    requires forall k :: 0 <= k < |ps| ==> Aligned(ps[k].value, qs[k].value)
    ensures UndiffLabeled(DiffLabeledFrom(ps, qs, i, d), ToOriginal) == ps[i..]
    ensures UndiffLabeled(DiffLabeledFrom(ps, qs, i, d), ToUpdate) == qs[i..]
    decreases ps, |ps| - i
  {
    assert |ps| == |Labels(ps)| == |qs|;
    if i < |ps| {
      RoundTripLabeledFrom(ps, qs, d, i + 1);
      assert ps[i].name == qs[i].name by { assert Labels(ps)[i] == Labels(qs)[i]; }
      MatchLabelUnique(qs, i);
      RoundTrip(ps[i].value, qs[i].value, d);
      LabeledFromStep(ps, qs, d, i);
    }
  }

  /** One more aligned pair in front of a suffix that already round-trips. */
  lemma LabeledFromStep(ps: seq<LabeledLimn>, qs: seq<LabeledLimn>, d: Differ, i: nat)
    requires ValidDiffer(d) && i < |ps| == |qs| && ps[i].name == qs[i].name
    requires !IsOmitted(ps[i].value) && MatchLabel(qs, ps[i].name) == Some(i)
    requires Undiff(DiffRec(ps[i].value, qs[i].value, d), ToOriginal) == Some(ps[i].value)
    requires Undiff(DiffRec(ps[i].value, qs[i].value, d), ToUpdate) == Some(qs[i].value)
    requires UndiffLabeled(DiffLabeledFrom(ps, qs, i + 1, d), ToOriginal) == ps[i + 1..]
    requires UndiffLabeled(DiffLabeledFrom(ps, qs, i + 1, d), ToUpdate) == qs[i + 1..]
    ensures UndiffLabeled(DiffLabeledFrom(ps, qs, i, d), ToOriginal) == ps[i..]
    ensures UndiffLabeled(DiffLabeledFrom(ps, qs, i, d), ToUpdate) == qs[i..]
  {
    var p := ps[i];
    var q := qs[i];
    var v := DiffRec(p.value, q.value, d);
    var rest := DiffLabeledFrom(ps, qs, i + 1, d);
    assert DiffLabeledFrom(ps, qs, i, d) == [LabeledLimn(p.name, v)] + rest;
    LabeledStep(p.name, v, rest, ToOriginal, p.value);
    LabeledStep(p.name, v, rest, ToUpdate, q.value);
    assert LabeledLimn(p.name, q.value) == q;
    SuffixCons(ps, i);
    SuffixCons(qs, i);
  }

  /** One labelled value whose undiff is known, in front of the rest. */
  lemma LabeledStep(name: string, v: Limn, rest: seq<LabeledLimn>, dir: Direction, x: Limn)
    requires Undiff(v, dir) == Some(x)
    ensures UndiffLabeled([LabeledLimn(name, v)] + rest, dir) == [LabeledLimn(name, x)] + UndiffLabeled(rest, dir)
  {
    UndiffLabeledCons(LabeledLimn(name, v), rest, dir);
  }

  lemma {:induction false} RoundTripCollection(a: Limn, b: Limn, d: Differ)
    requires ValidDiffer(d) && MinimalDiffer(d)
    requires Clean(a) && Clean(b) && Aligned(a, b) && a.Collection? && b.Collection?
    ensures Undiff(DiffRec(a, b, d), ToOriginal) == Some(a)
    ensures Undiff(DiffRec(a, b, d), ToUpdate) == Some(b)
    decreases a, 1
  {
    CleanChildren(a);
    CleanChildren(b);
    var s := d(a.elements, b.elements);
    assert ValidScript(s, a.elements, b.elements);
    RoundTripWalk(a.elements, b.elements, s, 0, 0, d);
    assert a.elements[0..] == a.elements && b.elements[0..] == b.elements;
  }

  lemma {:induction false} RoundTripWalk(olds: seq<Limn>, news: seq<Limn>, s: EditScript, o: nat, n: nat, d: Differ)
    requires ValidDiffer(d) && MinimalDiffer(d) && Synced(s, olds, news, o, n)
    requires forall i :: 0 <= i < |olds| ==> Clean(olds[i])
    requires forall j :: 0 <= j < |news| ==> Clean(news[j])
    requires forall i, j :: 0 <= i < |olds| && 0 <= j < |news| ==> Aligned(olds[i], news[j])
    ensures UndiffAll(DiffWalk(olds, news, s, o, n, d), ToOriginal) == olds[o..]
    ensures UndiffAll(DiffWalk(olds, news, s, o, n, d), ToUpdate) == news[n..]
    decreases olds, |olds| - o + |news| - n
  {
    if o >= |olds| && n >= |news| {
    } else {
      StepFacts(s, olds, news, o, n);
      var isRemoval := o in s.removals;
      var isInsertion := n in s.insertions;
      var r := DiffWalk(olds, news, s, o, n, d);
      if isRemoval == isInsertion {
        SuffixCons(olds, o);
        SuffixCons(news, n);
        RoundTripWalk(olds, news, s, o + 1, n + 1, d);
        RoundTrip(olds[o], news[n], d);
        var v := DiffRec(olds[o], news[n], d);
        var rest := DiffWalk(olds, news, s, o + 1, n + 1, d);
        assert r == [v] + rest;
        AllStep(v, rest, ToOriginal, olds[o]);
        AllStep(v, rest, ToUpdate, news[n]);
      } else if isInsertion {
        SuffixCons(news, n);
        RoundTripWalk(olds, news, s, o, n + 1, d);
        AdditionUndiff(news[n]);
        var v := Addition(news[n]);
        var rest := DiffWalk(olds, news, s, o, n + 1, d);
        assert r == [v] + rest;
        AllSkip(v, rest, ToOriginal);
        AllStep(v, rest, ToUpdate, news[n]);
      } else {
        SuffixCons(olds, o);
        RoundTripWalk(olds, news, s, o + 1, n, d);
        RemovalUndiff(olds[o]);
        var v := Removal(olds[o]);
        var rest := DiffWalk(olds, news, s, o + 1, n, d);
        assert r == [v] + rest;
        AllStep(v, rest, ToOriginal, olds[o]);
        AllSkip(v, rest, ToUpdate);
      }
    }
  }

  /** One element whose undiff is known, in front of the rest. */
  lemma AllStep(v: Limn, rest: seq<Limn>, dir: Direction, x: Limn)
    requires Undiff(v, dir) == Some(x)
    ensures UndiffAll([v] + rest, dir) == [x] + UndiffAll(rest, dir)
  {
    UndiffAllCons(v, rest, dir);
  }

  /** One element without the requested side, in front of the rest. */
  lemma AllSkip(v: Limn, rest: seq<Limn>, dir: Direction)
    requires Undiff(v, dir).None?
    ensures UndiffAll([v] + rest, dir) == UndiffAll(rest, dir)
  {
    UndiffAllCons(v, rest, dir);
  }

  lemma {:induction false} RoundTripDictionary(a: Limn, b: Limn, d: Differ)
    requires ValidDiffer(d) && MinimalDiffer(d)
    requires Clean(a) && Clean(b) && Aligned(a, b) && a.Dictionary? && b.Dictionary?
    ensures Undiff(DiffRec(a, b, d), ToOriginal) == Some(a)
    ensures Undiff(DiffRec(a, b, d), ToUpdate) == Some(b)
    decreases a, 1
  {
    var kvs := a.keyValuePairs;
    var lvs := b.keyValuePairs;
    CleanEntriesOf(a);
    CleanEntriesOf(b);
    RoundTripKeyed(kvs, lvs, d);
  }

  /** Every entry: key and value clean, value neither omitted nor an absent optional, key not an absent optional. */
  predicate CleanEntries(kvs: seq<KeyedLimn>) {
    forall k :: 0 <= k < |kvs| ==>
      && !IsOmitted(kvs[k].value) && Clean(kvs[k].key) && Clean(kvs[k].value)
      && kvs[k].key != NilOptional && kvs[k].value != NilOptional
  }

  lemma CleanEntriesOf(x: Limn)
    requires Clean(x) && x.Dictionary?
    ensures CleanEntries(x.keyValuePairs) && DistinctKeys(x.keyValuePairs)
  {
    CleanChildren(x);
  }

  lemma {:induction false} RoundTripKeyed(kvs: seq<KeyedLimn>, lvs: seq<KeyedLimn>, d: Differ)
    requires ValidDiffer(d) && MinimalDiffer(d) && |kvs| == |lvs|
    requires DistinctKeys(kvs) && DistinctKeys(lvs) && CleanEntries(kvs) && CleanEntries(lvs)
    requires forall k :: 0 <= k < |kvs| ==> kvs[k].key == lvs[k].key && Aligned(kvs[k].value, lvs[k].value)
    ensures UndiffKeyed(DiffKeyed(kvs, lvs, d), ToOriginal) == kvs
    ensures UndiffKeyed(DiffKeyed(kvs, lvs, d), ToUpdate) == lvs
    decreases kvs, |kvs| + 1
  {
    RoundTripKeyedFrom(kvs, lvs, d, 0);
    forall k | 0 <= k < |lvs|
      ensures MatchKey(kvs, lvs[k].key).Some?
    {
      MatchKeyUnique(kvs, k);
    }
    NothingInsertedKeyed(lvs, kvs, 0);
    var from := DiffKeyedFrom(kvs, lvs, 0, d);
    assert DiffKeyed(kvs, lvs, d) == from + InsertedKeyed(lvs, kvs, 0);
    assert from + [] == from;
    assert kvs[0..] == kvs && lvs[0..] == lvs;
  }

  lemma {:induction false} RoundTripKeyedFrom(kvs: seq<KeyedLimn>, lvs: seq<KeyedLimn>, d: Differ, i: nat)
    requires ValidDiffer(d) && MinimalDiffer(d) && i <= |kvs| == |lvs|
    requires DistinctKeys(lvs) && CleanEntries(kvs) && CleanEntries(lvs)
    requires forall k :: 0 <= k < |kvs| ==> kvs[k].key == lvs[k].key && Aligned(kvs[k].value, lvs[k].value)
    ensures UndiffKeyed(DiffKeyedFrom(kvs, lvs, i, d), ToOriginal) == kvs[i..]
    ensures UndiffKeyed(DiffKeyedFrom(kvs, lvs, i, d), ToUpdate) == lvs[i..]
    decreases kvs, |kvs| - i
  {
    if i < |kvs| {
      SuffixCons(kvs, i);
      SuffixCons(lvs, i);
      RoundTripKeyedFrom(kvs, lvs, d, i + 1);
      var kv := kvs[i];
      var lv := lvs[i];
      assert kv in kvs && kv.key < kv && kv.value < kv;
      MatchKeyUnique(lvs, i);
      DiffRecIdentity(kv.key, d);
      RoundTrip(kv.value, lv.value, d);
      var e := KeyedLimn(kv.key, DiffRec(kv.value, lv.value, d));
      var rest := DiffKeyedFrom(kvs, lvs, i + 1, d);
      assert DiffKeyedFrom(kvs, lvs, i, d) == [e] + rest;
      KeyedStep(e, rest, ToOriginal, kv);
      KeyedStep(e, rest, ToUpdate, lv);
    }
  }

  /** One entry with a clean key whose value undiffs to a present, non-nil value, in front of the rest. */
  lemma KeyedStep(e: KeyedLimn, rest: seq<KeyedLimn>, dir: Direction, kv: KeyedLimn)
    requires Plain(e.key) && NoNilEntries(e.key) && e.key != NilOptional && e.key == kv.key
    requires Undiff(e.value, dir) == Some(kv.value) && kv.value != NilOptional
    ensures UndiffKeyed([e] + rest, dir) == [kv] + UndiffKeyed(rest, dir)
  {
    UndiffIdentity(e.key, dir);
    assert UndiffEntry(e, dir) == Some(kv);
    UndiffKeyedCons(e, rest, dir);
  }

  lemma {:induction false} RoundTripEnum(a: Limn, b: Limn, d: Differ)
    requires ValidDiffer(d) && MinimalDiffer(d)
    requires Clean(a) && Clean(b) && Aligned(a, b) && a.Enum? && b.Enum?
    ensures Undiff(DiffRec(a, b, d), ToOriginal) == Some(a)
    ensures Undiff(DiffRec(a, b, d), ToUpdate) == Some(b)
    decreases a, 1
  {
    CleanChildren(a);
    CleanChildren(b);
    if a.name != b.name || a.caseName != b.caseName {
      ReplacementUndiff(a, b);
    } else if a.associatedValue.Some? {
      RoundTrip(a.associatedValue.value, b.associatedValue.value, d);
    }
  }

  lemma {:induction false} RoundTripOptional(a: Limn, b: Limn, d: Differ)
    requires ValidDiffer(d) && MinimalDiffer(d)
    requires Clean(a) && Clean(b) && Aligned(a, b) && a.Optional? && b.Optional?
    ensures Undiff(DiffRec(a, b, d), ToOriginal) == Some(a)
    ensures Undiff(DiffRec(a, b, d), ToUpdate) == Some(b)
    decreases a, 1
  {
    CleanChildren(a);
    CleanChildren(b);
    if a.wrapped.Some? && b.wrapped.Some? {
      RoundTrip(a.wrapped.value, b.wrapped.value, d);
    } else if a.wrapped.Some? != b.wrapped.Some? {
      ReplacementUndiff(a, b);
    }
  }

  lemma {:induction false} RoundTripTuple(a: Limn, b: Limn, d: Differ)
    requires ValidDiffer(d) && MinimalDiffer(d)
    requires Clean(a) && Clean(b) && Aligned(a, b) && a.Tuple? && b.Tuple?
    ensures Undiff(DiffRec(a, b, d), ToOriginal) == Some(a)
    ensures Undiff(DiffRec(a, b, d), ToUpdate) == Some(b)
    decreases a, 1
  {
    CleanChildren(a);
    CleanChildren(b);
    if Labels(a.tupleElements) != Labels(b.tupleElements) {
      ReplacementUndiff(a, b);
    } else {
      RoundTripZip(a.tupleElements, b.tupleElements, d);
    }
  }

  lemma {:induction false} RoundTripZip(ps: seq<LabeledLimn>, qs: seq<LabeledLimn>, d: Differ)
    requires ValidDiffer(d) && MinimalDiffer(d) && Labels(ps) == Labels(qs)
    requires forall k :: 0 <= k < |ps| ==> Clean(ps[k].value)
    requires forall k :: 0 <= k < |qs| ==> Clean(qs[k].value)
    requires forall k :: 0 <= k < |ps| ==> Aligned(ps[k].value, qs[k].value)
    ensures UndiffLabeled(DiffZip(ps, qs, d), ToOriginal) == ps
    ensures UndiffLabeled(DiffZip(ps, qs, d), ToUpdate) == qs
    decreases ps, 0
  {
    assert |ps| == |Labels(ps)| == |qs|;
    if ps != [] {
      assert Labels(ps)[0] == Labels(qs)[0];
      assert Labels(ps[1..]) == Labels(ps)[1..];
      assert Labels(qs[1..]) == Labels(qs)[1..];
      RoundTripZip(ps[1..], qs[1..], d);
      RoundTrip(ps[0].value, qs[0].value, d);
      var e := LabeledLimn(ps[0].name, DiffRec(ps[0].value, qs[0].value, d));
      var rest := DiffZip(ps[1..], qs[1..], d);
      assert DiffZip(ps, qs, d) == [e] + rest;
      UndiffLabeledCons(e, rest, ToOriginal);
      UndiffLabeledCons(e, rest, ToUpdate);
      assert ps == [ps[0]] + ps[1..];
      assert qs == [qs[0]] + qs[1..];
    }
  }

  lemma RoundTripSet(a: Limn, b: Limn)
    requires Clean(a) && Clean(b) && Aligned(a, b) && a.Set? && b.Set?
    ensures Undiff(DiffSet(a, b), ToOriginal) == Some(a)
    ensures Undiff(DiffSet(a, b), ToUpdate) == Some(b)
  {
    CleanChildren(a);
    CleanChildren(b);
    RoundTripSetElements(a.elements, b.elements);
  }

  lemma RoundTripSetElements(es: seq<Limn>, fs: seq<Limn>)
    requires NoDuplicates(es) && NoDuplicates(fs)
    requires forall i :: 0 <= i < |es| ==> !IsOmitted(es[i]) && Clean(es[i])
    requires forall i :: 0 <= i < |fs| ==> !IsOmitted(fs[i]) && Clean(fs[i])
    requires fs == Keep(es, fs) + Drop(fs, es)
    ensures UndiffAll(DiffSetElements(es, fs), ToOriginal) == es
    ensures UndiffAll(DiffSetElements(es, fs), ToUpdate) == fs
  {
    SetMembersOfSet(es);
    SetMembersOfSet(fs);
    var marked := MarkRemoved(es, fs);
    var added := Additions(Drop(fs, es));
    assert DiffSetElements(es, fs) == marked + added;
    UndiffAllAppend(marked, added, ToOriginal);
    UndiffAllAppend(marked, added, ToUpdate);
    MarkRemovedUndiff(es, fs);
    var dropped := Drop(fs, es);
    forall i | 0 <= i < |dropped|
      ensures Clean(dropped[i])
    {
      assert dropped[i] in fs;
    }
    AdditionsUndiff(dropped);
    assert es + [] == es;
  }

  lemma {:induction false} MarkRemovedUndiff(es: seq<Limn>, fs: seq<Limn>)
    requires forall i :: 0 <= i < |es| ==> Clean(es[i])
    ensures UndiffAll(MarkRemoved(es, fs), ToOriginal) == es
    ensures UndiffAll(MarkRemoved(es, fs), ToUpdate) == Keep(es, fs)
  {
    if es != [] {
      assert forall i :: 0 <= i < |es[1..]| ==> es[1..][i] == es[i + 1];
      MarkRemovedUndiff(es[1..], fs);
      MarkRemovedStep(es, fs);
    }
  }

  /** One more element in front: kept when the update has it, recorded as removed otherwise. */
  lemma MarkRemovedStep(es: seq<Limn>, fs: seq<Limn>)
    requires es != [] && Clean(es[0])
    requires UndiffAll(MarkRemoved(es[1..], fs), ToOriginal) == es[1..]
    requires UndiffAll(MarkRemoved(es[1..], fs), ToUpdate) == Keep(es[1..], fs)
    ensures UndiffAll(MarkRemoved(es, fs), ToOriginal) == es
    ensures UndiffAll(MarkRemoved(es, fs), ToUpdate) == Keep(es, fs)
  {
    var x := es[0];
    var head := if x in fs then x else Removal(x);
    assert MarkRemoved(es, fs) == [head] + MarkRemoved(es[1..], fs);
    assert Keep(es, fs) == (if x in fs then [x] else []) + Keep(es[1..], fs);
    UndiffAllCons(head, MarkRemoved(es[1..], fs), ToOriginal);
    UndiffAllCons(head, MarkRemoved(es[1..], fs), ToUpdate);
    if x in fs {
      UndiffIdentity(x, ToOriginal);
      UndiffIdentity(x, ToUpdate);
    } else {
      RemovalUndiff(x);
    }
    assert es == [x] + es[1..];
  }

  lemma {:induction false} AdditionsUndiff(ys: seq<Limn>)
    requires forall i :: 0 <= i < |ys| ==> Clean(ys[i])
    ensures UndiffAll(Additions(ys), ToOriginal) == []
    ensures UndiffAll(Additions(ys), ToUpdate) == ys
  {
    if ys != [] {
      AdditionsUndiff(ys[1..]);
      AdditionUndiff(ys[0]);
      assert Additions(ys) == [Addition(ys[0])] + Additions(ys[1..]);
      UndiffAllCons(Addition(ys[0]), Additions(ys[1..]), ToOriginal);
      UndiffAllCons(Addition(ys[0]), Additions(ys[1..]), ToUpdate);
      assert ys == [ys[0]] + ys[1..];
    }
  }

  // ---------------------------------------------------------------------------
  // The entry point and what a diff reveals
  // ---------------------------------------------------------------------------

  /** Diffing two clean, aligned trees through the entry point round-trips as well. */
  lemma DiffedRoundTrip(a: Limn, b: Limn, d: Differ)
    requires ValidDiffer(d) && MinimalDiffer(d)
    requires Clean(a) && Clean(b) && Aligned(a, b)
    ensures Undiff(Diffed(a, b, d), ToOriginal) == Some(a)
    ensures Undiff(Diffed(a, b, d), ToUpdate) == Some(b)
  {
    if ContainsDiff(a) { ContainsDiffNotPlain(a); }
    if ContainsDiff(b) { ContainsDiffNotPlain(b); }
    RoundTrip(a, b, d);
  }

  /** A diff of clean, aligned trees is free of diff records exactly when the trees are equal. */
  lemma DiffPlainIffEqual(a: Limn, b: Limn, d: Differ)
    requires ValidDiffer(d) && MinimalDiffer(d)
    requires Clean(a) && Clean(b) && Aligned(a, b)
    ensures Plain(DiffRec(a, b, d)) <==> a == b
  {
    if a == b {
      DiffRecIdentity(a, d);
    } else {
      RoundTrip(a, b, d);
      if Plain(DiffRec(a, b, d)) {
        UndiffDirectionFree(DiffRec(a, b, d));
      }
    }
  }

  /**
   * Diffing an existing diff against a new update starts again from the
   * diff's original side: the earlier update is forgotten.
   */
  lemma RediffFromOriginal(a: Limn, b: Limn, c: Limn, d: Differ)
    requires ValidDiffer(d) && MinimalDiffer(d)
    requires Clean(a) && Clean(b) && Clean(c) && Aligned(a, b)
    requires ContainsDiff(DiffRec(a, b, d))
    ensures Diffed(DiffRec(a, b, d), c, d) == DiffRec(a, c, d)
  {
    RoundTrip(a, b, d);
    ContainsDiffIfNotPlainFree(c);
    DiffedSides(DiffRec(a, b, d), c, a, c, d);
  }

  /** `Diffed` diffs the original side of `self` against the updated side of `update` when both exist. */
  lemma DiffedSides(self: Limn, update: Limn, o: Limn, u: Limn, d: Differ)
    requires ValidDiffer(d)
    requires (if ContainsDiff(self) then Undiff(self, ToOriginal) else Some(self)) == Some(o)
    requires (if ContainsDiff(update) then Undiff(update, ToUpdate) else Some(update)) == Some(u)
    ensures Diffed(self, update, d) == DiffRec(o, u, d)
  {
  }

  /** Diffing against an existing diff uses that diff's update side. */
  lemma RediffToUpdate(c: Limn, a: Limn, b: Limn, d: Differ)
    requires ValidDiffer(d) && MinimalDiffer(d)
    requires Clean(a) && Clean(b) && Clean(c) && Aligned(a, b)
    requires ContainsDiff(DiffRec(a, b, d))
    ensures Diffed(c, DiffRec(a, b, d), d) == DiffRec(c, b, d)
  {
    RoundTrip(a, b, d);
    ContainsDiffIfNotPlainFree(c);
    DiffedSides(c, DiffRec(a, b, d), c, b, d);
  }

  /** A value that only existed on the update side, diffed again, is recorded as an addition. */
  lemma RediffAddition(x: Limn, c: Limn, d: Differ)
    requires ValidDiffer(d) && Clean(x) && Clean(c)
    ensures Diffed(Addition(x), c, d) == Addition(c)
  {
    AdditionUndiff(x);
    assert ContainsDiff(Addition(x));
    if ContainsDiff(c) { ContainsDiffNotPlain(c); }
  }

  /** Diffing against a removal record yields a removal of the current value. */
  lemma RediffRemoval(c: Limn, x: Limn, d: Differ)
    requires ValidDiffer(d) && Clean(x) && Clean(c)
    ensures Diffed(c, Removal(x), d) == Removal(c)
  {
    RemovalUndiff(x);
    assert ContainsDiff(Removal(x));
    if ContainsDiff(c) { ContainsDiffNotPlain(c); }
  }

  /**
   * A property that only the update has is appended without a diff record, so
   * the diff carries no diffing information and undiffs to the update in both
   * directions: the original cannot be recovered.
   */
  lemma InsertedPropertyNotRecorded(d: Differ)
    requires ValidDiffer(d)
    ensures var a := Struct("S", []);
            var b := Struct("S", [LabeledLimn("x", Value("1"))]);
            && DiffRec(a, b, d) == b
            && !ContainsDiff(DiffRec(a, b, d))
            && Undiff(DiffRec(a, b, d), ToOriginal) == Some(b) != Some(a)
  {
    var b := Struct("S", [LabeledLimn("x", Value("1"))]);
    InsertedPropertyKept(d);
    InsertedPropertyPlain(b);
    ContainsDiffIfNotPlainFree(b);
    UndiffIdentity(b, ToOriginal);
    assert b != Struct("S", []) by { assert |b.properties| == 1; }
  }

  lemma InsertedPropertyPlain(b: Limn)
    requires b == Struct("S", [LabeledLimn("x", Value("1"))])
    ensures Plain(b) && NoNilEntries(b)
  {
    assert b.properties[0].value == Value("1");
  }

  /** The diff of the example is the update itself. */
  lemma InsertedPropertyKept(d: Differ)
    requires ValidDiffer(d)
    ensures DiffRec(Struct("S", []), Struct("S", [LabeledLimn("x", Value("1"))]), d)
      == Struct("S", [LabeledLimn("x", Value("1"))])
  {
    var ps := [LabeledLimn("x", Value("1"))];
    assert MatchLabel(ps, "x") == Some(0);
    assert MatchLabel([], "x") == None;
    assert InsertedLabeled(ps, [], 1) == [];
    assert InsertedLabeled(ps, [], 0) == ps;
    assert DiffLabeledFrom([], ps, 0, d) == [];
    assert DiffLabeled([], ps, d) == ps;
  }

  lemma ContainsDiffIfNotPlainFree(x: Limn)
    requires Plain(x)
    ensures !ContainsDiff(x)
  {
    if ContainsDiff(x) { ContainsDiffNotPlain(x); }
  }

  /**
   * The collection scenario [2, 3, 4, 5] to [1, 2, 9, 4] with the script that
   * removes offsets 1 and 3 and inserts offsets 0 and 2: "1" is an addition,
   * "3" is replaced by "9", "5" is a removal and the rest is unchanged.
   */
  lemma CollectionScenario(d: Differ)
    requires ValidDiffer(d)
    requires d(ScenarioOld(), ScenarioNew()) == ScenarioScript()
    ensures DiffRec(Collection(ScenarioOld()), Collection(ScenarioNew()), d)
      == Collection([Addition(Value("1")), Value("2"), Replacement(Value("3"), Value("9")), Value("4"), Removal(Value("5"))])
  {
    ScenarioFrom00(d);
  }

  function ScenarioOld(): seq<Limn> {
    [Value("2"), Value("3"), Value("4"), Value("5")]
  }

  function ScenarioNew(): seq<Limn> {
    [Value("1"), Value("2"), Value("9"), Value("4")]
  }

  function ScenarioScript(): EditScript {
    EditScript({1, 3}, {0, 2})
  }

  lemma ScenarioValid()
    ensures ValidScript(ScenarioScript(), ScenarioOld(), ScenarioNew())
  {
    var olds, news := ScenarioOld(), ScenarioNew();
    assert Kept(olds, {1, 3}, 2) == [Value("4")];
    assert Kept(news, {0, 2}, 2) == [Value("4")];
  }

  lemma ScenarioFrom34(d: Differ)
    requires ValidDiffer(d)
    ensures Synced(ScenarioScript(), ScenarioOld(), ScenarioNew(), 3, 4)
    ensures DiffWalk(ScenarioOld(), ScenarioNew(), ScenarioScript(), 3, 4, d) == [Removal(Value("5"))]
  {
    ScenarioValid();
    assert Kept(ScenarioOld(), {1, 3}, 4) == [];
  }

  lemma ScenarioFrom23(d: Differ)
    requires ValidDiffer(d)
    ensures Synced(ScenarioScript(), ScenarioOld(), ScenarioNew(), 2, 3)
    ensures DiffWalk(ScenarioOld(), ScenarioNew(), ScenarioScript(), 2, 3, d) == [Value("4"), Removal(Value("5"))]
  {
    ScenarioFrom34(d);
    assert Kept(ScenarioOld(), {1, 3}, 3) == [];
  }

  lemma ScenarioFrom12(d: Differ)
    requires ValidDiffer(d)
    ensures Synced(ScenarioScript(), ScenarioOld(), ScenarioNew(), 1, 2)
    ensures DiffWalk(ScenarioOld(), ScenarioNew(), ScenarioScript(), 1, 2, d)
      == [Replacement(Value("3"), Value("9")), Value("4"), Removal(Value("5"))]
  {
    ScenarioFrom23(d);
    assert Kept(ScenarioOld(), {1, 3}, 2) == [Value("4")];
  }

  lemma ScenarioFrom01(d: Differ)
    requires ValidDiffer(d)
    ensures Synced(ScenarioScript(), ScenarioOld(), ScenarioNew(), 0, 1)
    ensures DiffWalk(ScenarioOld(), ScenarioNew(), ScenarioScript(), 0, 1, d)
      == [Value("2"), Replacement(Value("3"), Value("9")), Value("4"), Removal(Value("5"))]
  {
    ScenarioFrom12(d);
    assert Kept(ScenarioNew(), {0, 2}, 1) == Kept(ScenarioNew(), {0, 2}, 0);
  }

  lemma ScenarioFrom00(d: Differ)
    requires ValidDiffer(d)
    ensures Synced(ScenarioScript(), ScenarioOld(), ScenarioNew(), 0, 0)
    ensures DiffWalk(ScenarioOld(), ScenarioNew(), ScenarioScript(), 0, 0, d)
      == [Addition(Value("1")), Value("2"), Replacement(Value("3"), Value("9")), Value("4"), Removal(Value("5"))]
  {
    ScenarioFrom01(d);
  }

  // ---------------------------------------------------------------------------
  // The collection walk as a trace
  // ---------------------------------------------------------------------------

  /** The diffed element one step of the tree trace produces. */
  function StepResult(st: Step<Limn>, d: Differ): Limn
    requires ValidDiffer(d)
  {
    match st
    case Unchanged(x, y) => DiffRec(x, y, d)
    case Replaced(x, y) => DiffRec(x, y, d)
    case Inserted(y) => Addition(y)
    case Removed(x) => Removal(x)
  }

  /**
   * The diffed collection is the tree trace of the edit script, step by step;
   * together with `TreeTraceConsumesAll`, every old and every new element
   * contributes exactly once, in order.
   */
  lemma {:induction false} DiffWalkFollowsTrace(olds: seq<Limn>, news: seq<Limn>, s: EditScript, o: nat, n: nat, d: Differ)
    requires ValidDiffer(d) && Synced(s, olds, news, o, n)
    ensures FollowsTrace(DiffWalk(olds, news, s, o, n, d), TreeTrace(s, olds, news, o, n), d)
    decreases |olds| - o + |news| - n
  {
    if o < |olds| || n < |news| {
      StepFacts(s, olds, news, o, n);
      var isRemoval := o in s.removals;
      var isInsertion := n in s.insertions;
      var o', n' := if isRemoval || !isInsertion then o + 1 else o, if isInsertion || !isRemoval then n + 1 else n;
      DiffWalkFollowsTrace(olds, news, s, o', n', d);
      var r := DiffWalk(olds, news, s, o, n, d);
      var t := TreeTrace(s, olds, news, o, n);
      assert r == [r[0]] + DiffWalk(olds, news, s, o', n', d);
      assert t == [t[0]] + TreeTrace(s, olds, news, o', n');
      assert r[0] == StepResult(t[0], d);
      FollowsCons(r[0], DiffWalk(olds, news, s, o', n', d), t[0], TreeTrace(s, olds, news, o', n'), d);
    }
  }

  /** `r` is the result of each step of the trace `t`, in order. */
  predicate FollowsTrace(r: seq<Limn>, t: seq<Step<Limn>>, d: Differ)
    requires ValidDiffer(d)
  {
    |r| == |t| && forall k :: 0 <= k < |t| ==> r[k] == StepResult(t[k], d)
  }

  lemma FollowsCons(x: Limn, r: seq<Limn>, st: Step<Limn>, t: seq<Step<Limn>>, d: Differ)
    requires ValidDiffer(d) && FollowsTrace(r, t, d) && x == StepResult(st, d)
    ensures FollowsTrace([x] + r, [st] + t, d)
  {
    forall k | 1 <= k < |t| + 1
      ensures ([x] + r)[k] == StepResult(([st] + t)[k], d)
    {
      assert ([x] + r)[k] == r[k - 1];
    }
  }
}
